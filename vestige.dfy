/**
 * Tile categories, difficulty profiles, the random tile generator and the
 * leaderboard record (VestigeEntity.swift).
 */
module Vestige {

  /** `ObsoleteCategory`, listed in `allCases` order. */
  datatype Category = Bdruu | Ueiuje | Zmeoe | Qiwiea

  function RawValue(c: Category): string
  {
    match c
    case Bdruu => "bdruu"
    case Ueiuje => "ueiuje"
    case Zmeoe => "zmeoe"
    case Qiwiea => "qiwiea"
  }

  /** Largest numeric value a tile of this category may carry. */
  function MaxValue(c: Category): nat
  {
    if c == Qiwiea then 7 else 8
  }

  /** `ChromaticDifficulty`. */
  datatype Difficulty = Novice | Virtuoso

  function DifficultyRawValue(d: Difficulty): string
  {
    match d
    case Novice => "Novice Mode"
    case Virtuoso => "Virtuoso Mode"
  }

  /** Tiles per side of the memorisation grid. */
  function GridDimension(d: Difficulty): nat
  {
    match d
    case Novice => 2
    case Virtuoso => 3
  }

  /** Seconds the tiles are shown before the puzzle starts. */
  function MemorizeInterval(d: Difficulty): nat
  {
    match d
    case Novice => 5
    case Virtuoso => 10
  }

  /** Fragments per side of the puzzle grid. */
  function PuzzleFragments(d: Difficulty): nat
  {
    match d
    case Novice => 4
    case Virtuoso => 6
  }

  /** Every tile is cut into FragmentsPerTile x FragmentsPerTile fragments. */
  const FragmentsPerTile: nat := 2

  /** The puzzle grid is the tile grid with every tile cut in 2 x 2. */
  lemma ProfileShape(d: Difficulty)
    ensures PuzzleFragments(d) == FragmentsPerTile * GridDimension(d)
    ensures GridDimension(d) * GridDimension(d) * 4 == PuzzleFragments(d) * PuzzleFragments(d)
    ensures 1 <= GridDimension(d) && 1 <= MemorizeInterval(d)
    ensures GridDimension(d) * GridDimension(d) <= 9
  {
  }

  /** `VestigeTileEntity`. */
  datatype Tile = Tile(identifier: string, obsoleteCategory: Category, numericValue: int)

  /** The asset name of a tile's image. */
  function ImageDesignation(t: Tile): string
  {
    t.identifier
  }

  /** One outcome of the generator's randomness: `randomElement()` and `Int.random`. */
  datatype Draw = Draw(category: Category, value: nat)

  /** What `Int.random(in: 1...maxValue)` can return for the drawn category. */
  predicate ValidDraw(d: Draw)
  {
    1 <= d.value <= MaxValue(d.category)
  }

  function DigitChar(d: nat): char
    requires d < 10
  {
    (48 + d) as char
  }

  /** Swift's decimal string interpolation of a non-negative integer. */
  function Decimal(n: nat): string
  {
    if n < 10 then [DigitChar(n)] else Decimal(n / 10) + [DigitChar(n % 10)]
  }

  /** The identifier `"\(category.rawValue)\(value)"`. */
  function Identifier(c: Category, v: nat): string
  {
    RawValue(c) + Decimal(v)
  }

  /** `generateArbitraryTile` with its random choices given as a draw. */
  function GenerateArbitraryTile(d: Draw): (t: Tile)
    requires ValidDraw(d)
    ensures t.obsoleteCategory == d.category && t.numericValue == d.value
    ensures 1 <= t.numericValue <= (if t.obsoleteCategory == Qiwiea then 7 else 8)
    ensures ImageDesignation(t) == t.identifier == RawValue(t.obsoleteCategory) + Decimal(d.value)
  {
    Tile(Identifier(d.category, d.value), d.category, d.value)
  }

  lemma {:induction false} DecimalShape(n: nat)
    ensures |Decimal(n)| >= 1
    ensures Decimal(n)[|Decimal(n)| - 1] == DigitChar(n % 10)
    ensures n < 10 <==> |Decimal(n)| == 1
  {
    if n >= 10 {
      DecimalShape(n / 10);
    }
  }

  /** Distinct numbers print differently. */
  lemma {:induction false} DecimalInjective(a: nat, b: nat)
    requires Decimal(a) == Decimal(b)
    ensures a == b
  {
    DecimalShape(a);
    DecimalShape(b);
    var s := Decimal(a);
    assert DigitChar(a % 10) == DigitChar(b % 10);
    if a >= 10 {
      assert b >= 10;
      assert Decimal(a / 10) == s[..|s| - 1] == Decimal(b / 10);
      DecimalInjective(a / 10, b / 10);
    }
  }

  /** The generator's identifier determines its category and value. */
  lemma IdentifierInjective(c1: Category, v1: nat, c2: Category, v2: nat)
    requires Identifier(c1, v1) == Identifier(c2, v2)
    ensures c1 == c2 && v1 == v2
  {
    var s := Identifier(c1, v1);
    assert s[0] == RawValue(c1)[0] == RawValue(c2)[0];
    assert c1 == c2;
    assert Decimal(v1) == s[|RawValue(c1)|..] == Decimal(v2);
    DecimalInjective(v1, v2);
  }

  /** Identifiers of the values 1..n of one category. */
  function CategoryIdentifiers(c: Category, n: nat): set<string>
  {
    if n == 0 then {} else CategoryIdentifiers(c, n - 1) + {Identifier(c, n)}
  }

  /** Every identifier the generator can return. */
  function IdentifierSpace(): set<string>
  {
    CategoryIdentifiers(Bdruu, MaxValue(Bdruu)) + CategoryIdentifiers(Ueiuje, MaxValue(Ueiuje))
    + CategoryIdentifiers(Zmeoe, MaxValue(Zmeoe)) + CategoryIdentifiers(Qiwiea, MaxValue(Qiwiea))
  }

  lemma {:induction false} CategoryIdentifiersMembers(c: Category, n: nat, s: string)
    ensures s in CategoryIdentifiers(c, n) <==> exists v :: 1 <= v <= n && s == Identifier(c, v)
  {
    if n > 0 {
      CategoryIdentifiersMembers(c, n - 1, s);
    }
  }

  lemma {:induction false} CategoryIdentifiersSize(c: Category, n: nat)
    ensures |CategoryIdentifiers(c, n)| == n
  {
    if n > 0 {
      CategoryIdentifiersSize(c, n - 1);
      if Identifier(c, n) in CategoryIdentifiers(c, n - 1) {
        CategoryIdentifiersMembers(c, n - 1, Identifier(c, n));
        var v :| 1 <= v <= n - 1 && Identifier(c, n) == Identifier(c, v);
        IdentifierInjective(c, n, c, v);
      }
    }
  }

  lemma CategoryIdentifiersDisjoint(c1: Category, c2: Category)
    requires c1 != c2
    ensures CategoryIdentifiers(c1, MaxValue(c1)) !! CategoryIdentifiers(c2, MaxValue(c2))
  {
    forall s | s in CategoryIdentifiers(c1, MaxValue(c1)) && s in CategoryIdentifiers(c2, MaxValue(c2))
      ensures false
    {
      CategoryIdentifiersMembers(c1, MaxValue(c1), s);
      CategoryIdentifiersMembers(c2, MaxValue(c2), s);
      var v1 :| 1 <= v1 <= MaxValue(c1) && s == Identifier(c1, v1);
      var v2 :| 1 <= v2 <= MaxValue(c2) && s == Identifier(c2, v2);
      IdentifierInjective(c1, v1, c2, v2);
    }
  }

  lemma DisjointUnionSize(a: set<string>, b: set<string>)
    requires a !! b
    ensures |a + b| == |a| + |b|
  {
    assert a * b == {};
  }

  /** A set larger than another has a member the other lacks. */
  lemma MissedMember(space: set<string>, used: set<string>) returns (s: string)
    requires |used| < |space|
    ensures s in space && s !in used
  {
    assert space == (space * used) + (space - used);
    DisjointUnionSize(space * used, space - used);
    assert used == (space * used) + (used - space);
    DisjointUnionSize(space * used, used - space);
    assert |space - used| > 0;
    s :| s in space - used;
  }

  /** The identifier space is exactly what valid draws produce. */
  lemma IdentifierSpaceMembers(s: string)
    ensures s in IdentifierSpace() <==> exists d :: ValidDraw(d) && GenerateArbitraryTile(d).identifier == s
  {
    CategoryIdentifiersMembers(Bdruu, MaxValue(Bdruu), s);
    CategoryIdentifiersMembers(Ueiuje, MaxValue(Ueiuje), s);
    CategoryIdentifiersMembers(Zmeoe, MaxValue(Zmeoe), s);
    CategoryIdentifiersMembers(Qiwiea, MaxValue(Qiwiea), s);
    if s in IdentifierSpace() {
      var c :| c in [Bdruu, Ueiuje, Zmeoe, Qiwiea] && s in CategoryIdentifiers(c, MaxValue(c));
      var v :| 1 <= v <= MaxValue(c) && s == Identifier(c, v);
      assert GenerateArbitraryTile(Draw(c, v)).identifier == s;
    }
  }

  /** 8 + 8 + 8 + 7 distinct identifiers. */
  lemma IdentifierSpaceSize()
    ensures |IdentifierSpace()| == 31
  {
    var b := CategoryIdentifiers(Bdruu, MaxValue(Bdruu));
    var u := CategoryIdentifiers(Ueiuje, MaxValue(Ueiuje));
    var z := CategoryIdentifiers(Zmeoe, MaxValue(Zmeoe));
    var q := CategoryIdentifiers(Qiwiea, MaxValue(Qiwiea));
    CategoryIdentifiersSize(Bdruu, 8);
    CategoryIdentifiersSize(Ueiuje, 8);
    CategoryIdentifiersSize(Zmeoe, 8);
    CategoryIdentifiersSize(Qiwiea, 7);
    CategoryIdentifiersDisjoint(Bdruu, Ueiuje);
    CategoryIdentifiersDisjoint(Bdruu, Zmeoe);
    CategoryIdentifiersDisjoint(Bdruu, Qiwiea);
    CategoryIdentifiersDisjoint(Ueiuje, Zmeoe);
    CategoryIdentifiersDisjoint(Ueiuje, Qiwiea);
    CategoryIdentifiersDisjoint(Zmeoe, Qiwiea);
    DisjointUnionSize(b, u);
    DisjointUnionSize(b + u, z);
    DisjointUnionSize(b + u + z, q);
  }

  /**
   * While fewer tiles than the largest grid holds have been collected, some
   * draw still yields an unused identifier, so the unique-tile loop can
   * always make progress.
   */
  lemma FreshTileExists(d: Difficulty, used: set<string>)
    requires |used| < GridDimension(d) * GridDimension(d)
    ensures exists w :: ValidDraw(w) && GenerateArbitraryTile(w).identifier !in used
  {
    IdentifierSpaceSize();
    var space := IdentifierSpace();
    assert |used| < |space| by { ProfileShape(d); }
    var s := MissedMember(space, used);
    IdentifierSpaceMembers(s);
  }

  /** Stands for Foundation's `Date`; the model never looks inside it. */
  type Timestamp = nat

  /** `ChromaticRecord`. */
  datatype Record = Record(difficultyMode: string, accomplishedStrata: int, chronologicalStamp: Timestamp)
}
