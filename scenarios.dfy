/**
 * Concrete searches over small corpora, worked out from the general
 * lemmas, and one concrete distance worked out cell by cell. Strings are
 * spelled as ASCII byte values.
 */
module Scenarios {
  import opened Distance
  import opened TokenMatcher
  import opened SearchEngine

  const MARIO: seq<byte> := [77, 97, 114, 105, 111]
  const ROSSI: seq<byte> := [82, 111, 115, 115, 105]
  /** "Luca Bianchi" */
  const LUCA_BIANCHI: seq<byte> := [76, 117, 99, 97, 32, 66, 105, 97, 110, 99, 104, 105]
  const ANNA: seq<byte> := [65, 110, 110, 97]
  const ANNE: seq<byte> := [65, 110, 110, 101]
  const ABC: seq<byte> := [97, 98, 99]
  const XAVIER: seq<byte> := [88, 97, 118, 105, 101, 114]
  const ZORRO: seq<byte> := [90, 111, 114, 114, 111]

  /** A first name finds the full name "Mario Rossi" first, at distance 0,
      whatever "Luca Bianchi" scores. */
  lemma FirstNameFindsFullName(corpus: seq<seq<byte>>)
    requires corpus == [MARIO + [SPACE] + ROSSI, LUCA_BIANCHI]
    ensures var hits := Ranking(MARIO, corpus);
            hits != [] && hits[0] == Hit(MARIO + [SPACE] + ROSSI, 0, 0)
  {
    var name := corpus[0];
    SplitTwoWords(MARIO, ROSSI);
    assert MARIO in SplitWhitespace(name);
    FuzzyMatchZeroIff(MARIO, name);
    RankingExactFirst(MARIO, corpus);
  }

  /** "Anne" against the corpus ["Anna"]: one hit, one substitution away. */
  lemma OneSubstitution(query: seq<byte>, name: seq<byte>)
    requires query == ANNE && name == ANNA
    ensures Ranking(query, [name]) == [Hit(name, 1, 0)]
  {
    assert query[..3] == name[..3];
    LevSubstituteLast(query, name);
    assert SPACE !in name by {
      assert forall k :: 0 <= k < |name| ==> name[k] != SPACE;
    }
    RankingSingleName(query, name);
  }

  /** "Xavier Zorro" has a space and the two words "Xavier" and "Zorro". */
  lemma XavierZorroWords(name: seq<byte>)
    requires name == XAVIER + [SPACE] + ZORRO
    ensures SPACE in name && !AllWhitespace(name)
    ensures SplitWhitespace(name) == [XAVIER, ZORRO]
  {
    SplitTwoWords(XAVIER, ZORRO);
  }

  /** "abc" is at least three edits from "Xavier" (three bytes longer) and
      from "Zorro" (no byte in common). */
  lemma AbcFarFromBothWords(query: seq<byte>)
    requires query == ABC
    ensures Lev(query, XAVIER) >= THRESHOLD && Lev(query, ZORRO) >= THRESHOLD
  {
    assert Disjoint(query, ZORRO) by {
      assert forall x :: 0 <= x < |query| ==> 97 <= query[x] <= 99;
      assert forall y :: 0 <= y < |ZORRO| ==> ZORRO[y] == 90 || ZORRO[y] >= 111;
    }
    LevDisjoint(query, ZORRO);
  }

  /** "abc" against the corpus ["Xavier Zorro"]: both words are at least
      three edits away, so nothing is returned. */
  lemma FarNameDropped(query: seq<byte>, name: seq<byte>)
    requires query == ABC && name == XAVIER + [SPACE] + ZORRO
    ensures Ranking(query, [name]) == []
  {
    XavierZorroWords(name);
    AbcFarFromBothWords(query);
    FuzzyMatchClosestWord(query, name);
    var w :| w in [XAVIER, ZORRO] && FuzzyMatch(query, name) == Lev(query, w);
    RankingEmptyIff(query, [name]);
  }

  /** "kitten" and "sitting". */
  const KITTEN: seq<byte> := [107, 105, 116, 116, 101, 110]
  const SITTING: seq<byte> := [115, 105, 116, 116, 105, 110, 103]

  /** Row r of the grid of `a` against a seven-byte `b` holds the values `v`. */
  ghost predicate GridRow(a: seq<byte>, b: seq<byte>, r: int, v: seq<int>)
    requires 0 <= r <= |a| && |b| == 7 && |v| == 8
  {
    Dist(a, b, r, 0) == v[0] && Dist(a, b, r, 1) == v[1] && Dist(a, b, r, 2) == v[2]
    && Dist(a, b, r, 3) == v[3] && Dist(a, b, r, 4) == v[4] && Dist(a, b, r, 5) == v[5]
    && Dist(a, b, r, 6) == v[6] && Dist(a, b, r, 7) == v[7]
  }

  /** Row 1 of the grid of "kitten" against "sitting" (byte 'k'). */
  lemma KittenRow1(a: seq<byte>, b: seq<byte>)
    requires |a| == 6 && b == SITTING && a[0] == 107
    requires GridRow(a, b, 0, [0, 1, 2, 3, 4, 5, 6, 7])
    ensures GridRow(a, b, 1, [1, 1, 2, 3, 4, 5, 6, 7])
  {
  }

  /** Row 2 of the grid of "kitten" against "sitting" (byte 'i'). */
  lemma KittenRow2(a: seq<byte>, b: seq<byte>)
    requires |a| == 6 && b == SITTING && a[1] == 105
    requires GridRow(a, b, 1, [1, 1, 2, 3, 4, 5, 6, 7])
    ensures GridRow(a, b, 2, [2, 2, 1, 2, 3, 4, 5, 6])
  {
  }

  /** Row 3 of the grid of "kitten" against "sitting" (byte 't'). */
  lemma KittenRow3(a: seq<byte>, b: seq<byte>)
    requires |a| == 6 && b == SITTING && a[2] == 116
    requires GridRow(a, b, 2, [2, 2, 1, 2, 3, 4, 5, 6])
    ensures GridRow(a, b, 3, [3, 3, 2, 1, 2, 3, 4, 5])
  {
  }

  /** Row 4 of the grid of "kitten" against "sitting" (byte 't'). */
  lemma KittenRow4(a: seq<byte>, b: seq<byte>)
    requires |a| == 6 && b == SITTING && a[3] == 116
    requires GridRow(a, b, 3, [3, 3, 2, 1, 2, 3, 4, 5])
    ensures GridRow(a, b, 4, [4, 4, 3, 2, 1, 2, 3, 4])
  {
  }

  /** Row 5 of the grid of "kitten" against "sitting" (byte 'e'). */
  lemma KittenRow5(a: seq<byte>, b: seq<byte>)
    requires |a| == 6 && b == SITTING && a[4] == 101
    requires GridRow(a, b, 4, [4, 4, 3, 2, 1, 2, 3, 4])
    ensures GridRow(a, b, 5, [5, 5, 4, 3, 2, 2, 3, 4])
  {
  }

  /** Row 6 of the grid of "kitten" against "sitting" (byte 'n'). */
  lemma KittenRow6(a: seq<byte>, b: seq<byte>)
    requires |a| == 6 && b == SITTING && a[5] == 110
    requires GridRow(a, b, 5, [5, 5, 4, 3, 2, 2, 3, 4])
    ensures GridRow(a, b, 6, [6, 6, 5, 4, 3, 3, 2, 3])
  {
  }

  /** The textbook example: "kitten" becomes "sitting" in three edits (two
      substitutions and an insertion) and in no fewer. */
  lemma KittenSitting(a: seq<byte>, b: seq<byte>)
    requires a == KITTEN && b == SITTING
    ensures Lev(a, b) == 3
  {
    KittenRow1(a, b);
    KittenRow2(a, b);
    KittenRow3(a, b);
    KittenRow4(a, b);
    KittenRow5(a, b);
    KittenRow6(a, b);
  }
}
