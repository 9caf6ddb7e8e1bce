/**
 * The token matcher (`fuzzy_match`): how far a query is from one name of
 * the corpus. A name without a space character is compared whole; a name
 * with one is cut into its whitespace-delimited words and scored by its
 * closest word, or by the `usize::MAX` sentinel when there is no word.
 */
module TokenMatcher {
  import opened Distance

  datatype Option<T> = None | Some(value: T)

  /** The space character: the only byte the source looks for before it
      decides to split a name. */
  const SPACE: byte := 32

  /** `usize::MAX` on a 64-bit target, the score of a name with no word. */
  const USIZE_MAX: nat := 0xFFFF_FFFF_FFFF_FFFF

  /** The ASCII bytes that Rust's `char::is_whitespace` accepts, which are
      the separators of `split_whitespace`: tab, line feed, vertical tab,
      form feed, carriage return and space. A separator is an ASCII byte, so
      it never occurs inside the encoding of another character, and the
      space the guard looks for is one of them. */
  predicate IsWhitespace(c: byte): (w: bool)
    ensures w ==> c < 0x80
    ensures c == SPACE ==> w
  {
    c == SPACE || 9 <= c <= 13
  }

  predicate NoWhitespace(s: seq<byte>) {
    forall k :: 0 <= k < |s| ==> !IsWhitespace(s[k])
  }

  predicate AllWhitespace(s: seq<byte>) {
    forall k :: 0 <= k < |s| ==> IsWhitespace(s[k])
  }

  /** Length of the run of non-whitespace bytes at the start of `s`: the
      run stops at the end of `s` or at a whitespace byte. */
  function WordLength(s: seq<byte>): (w: nat)
    ensures w <= |s|
    ensures forall k :: 0 <= k < w ==> !IsWhitespace(s[k])
    ensures w == |s| || IsWhitespace(s[w])
  {
    if s == [] || IsWhitespace(s[0]) then 0 else 1 + WordLength(s[1..])
  }

  /**
   * `str::split_whitespace`: the maximal runs of non-whitespace bytes of
   * `s`, in order. Leading, trailing and repeated separators produce no
   * empty word.
   */
  function SplitWhitespace(s: seq<byte>): (words: seq<seq<byte>>)
    ensures forall k :: 0 <= k < |words| ==> words[k] != [] && NoWhitespace(words[k])
    ensures forall k :: 0 <= k < |words| ==> |words[k]| <= |s|
    decreases |s|
  {
    if s == [] then []
    else if IsWhitespace(s[0]) then SplitWhitespace(s[1..])
    else
      var w := WordLength(s);
      [s[..w]] + SplitWhitespace(s[w..])
  }

  /** The words of `s` laid end to end. */
  function Concat(words: seq<seq<byte>>): seq<byte> {
    if words == [] then [] else words[0] + Concat(words[1..])
  }

  /** `s` with its whitespace bytes removed. */
  function Strip(s: seq<byte>): seq<byte> {
    if s == [] then []
    else if IsWhitespace(s[0]) then Strip(s[1..])
    else [s[0]] + Strip(s[1..])
  }

  lemma {:induction false} StripAppend(x: seq<byte>, y: seq<byte>)
    ensures Strip(x + y) == Strip(x) + Strip(y)
    decreases |x|
  {
    if x != [] {
      assert (x + y)[0] == x[0] && (x + y)[1..] == x[1..] + y;
      StripAppend(x[1..], y);
    } else {
      assert x + y == y;
    }
  }

  lemma {:induction false} StripWord(x: seq<byte>)
    requires NoWhitespace(x)
    ensures Strip(x) == x
    decreases |x|
  {
    if x != [] {
      StripWord(x[1..]);
    }
  }

  /** Splitting loses the whitespace and nothing else. */
  lemma {:induction false} SplitKeepsBytes(s: seq<byte>)
    ensures Concat(SplitWhitespace(s)) == Strip(s)
    decreases |s|
  {
    if s != [] {
      if IsWhitespace(s[0]) {
        SplitKeepsBytes(s[1..]);
      } else {
        var w := WordLength(s);
        SplitKeepsBytes(s[w..]);
        assert s == s[..w] + s[w..];
        StripAppend(s[..w], s[w..]);
        StripWord(s[..w]);
        assert ([s[..w]] + SplitWhitespace(s[w..]))[1..] == SplitWhitespace(s[w..]);
      }
    }
  }

  /** A string has no word exactly when it is all whitespace. */
  lemma {:induction false} SplitEmptyIff(s: seq<byte>)
    ensures SplitWhitespace(s) == [] <==> AllWhitespace(s)
    decreases |s|
  {
    if s != [] && IsWhitespace(s[0]) {
      SplitEmptyIff(s[1..]);
      if AllWhitespace(s[1..]) {
        forall k | 0 <= k < |s| ensures IsWhitespace(s[k]) {
          if k > 0 {
            assert s[k] == s[1..][k - 1];
          }
        }
      }
    }
  }

  /** A non-empty string without whitespace is a single word. */
  lemma SplitSingleWord(s: seq<byte>)
    requires s != [] && NoWhitespace(s)
    ensures SplitWhitespace(s) == [s]
  {
    var w := WordLength(s);
    assert w == |s|;
    assert s[..w] == s && s[w..] == [];
  }

  /** A "First Last" name has a space and splits into its two words. */
  lemma SplitTwoWords(first: seq<byte>, last: seq<byte>)
    requires first != [] && NoWhitespace(first) && last != [] && NoWhitespace(last)
    ensures SPACE in first + [SPACE] + last && !AllWhitespace(first + [SPACE] + last)
    ensures SplitWhitespace(first + [SPACE] + last) == [first, last]
  {
    var name := first + [SPACE] + last;
    SplitAt(first, SPACE, last);
    SplitSingleWord(first);
    SplitSingleWord(last);
    assert name[|first|] == SPACE;
    assert name[0] == first[0];
  }

  /** A word that ends at a whitespace byte ends before it. */
  lemma {:induction false} WordLengthBeforeSeparator(s: seq<byte>, c: byte, t: seq<byte>)
    requires IsWhitespace(c)
    ensures WordLength(s + [c] + t) == WordLength(s)
    decreases |s|
  {
    if s != [] && !IsWhitespace(s[0]) {
      assert (s + [c] + t)[1..] == s[1..] + [c] + t;
      WordLengthBeforeSeparator(s[1..], c, t);
    }
  }

  /** Cutting a string at a whitespace byte cuts its word list at the same
      place. */
  lemma {:induction false} SplitAt(s: seq<byte>, c: byte, t: seq<byte>)
    requires IsWhitespace(c)
    ensures SplitWhitespace(s + [c] + t) == SplitWhitespace(s) + SplitWhitespace(t)
    decreases |s|
  {
    var u := s + [c] + t;
    if s == [] {
      assert u[1..] == t;
    } else if IsWhitespace(s[0]) {
      assert u[1..] == s[1..] + [c] + t;
      SplitAt(s[1..], c, t);
    } else {
      var w := WordLength(s);
      WordLengthBeforeSeparator(s, c, t);
      assert u[..w] == s[..w];
      assert u[w..] == s[w..] + [c] + t;
      SplitAt(s[w..], c, t);
    }
  }

  /** The distance from the query to its closest word, or `None` when
      there is no word (the source's `min` over an empty iterator). */
  function MinDistance(query: seq<byte>, words: seq<seq<byte>>): (r: Option<nat>)
    ensures r.None? <==> words == []
    ensures r.Some? ==> forall k :: 0 <= k < |words| ==> r.value <= Lev(query, words[k])
    ensures r.Some? ==> exists k :: 0 <= k < |words| && r.value == Lev(query, words[k])
  {
    if words == [] then None
    else
      var d := Lev(query, words[0]);
      match MinDistance(query, words[1..])
      case None => Some(d)
      case Some(m) =>
        assert forall k :: 1 <= k < |words| ==> words[k] == words[1..][k - 1];
        Some(Min(d, m))
  }

  /**
   * The source's `fuzzy_match`. The test for splitting looks for the space
   * character alone, while the split itself cuts at every whitespace byte.
   * The score is a distance, bounded by the longer of the two strings, or
   * the sentinel when a name with a space has no word.
   */
  function FuzzyMatch(query: seq<byte>, name: seq<byte>): (d: nat)
    ensures d == USIZE_MAX || d <= Max(|query|, |name|)
  {
    if SPACE !in name then Lev(query, name)
    else
      match MinDistance(query, SplitWhitespace(name))
      case None => USIZE_MAX
      case Some(m) => m
  }

  /** A name with a space is scored by its closest word: no word is closer,
      and the score is the distance to one of them. */
  lemma FuzzyMatchClosestWord(query: seq<byte>, name: seq<byte>)
    requires SPACE in name && !AllWhitespace(name)
    ensures forall w :: w in SplitWhitespace(name) ==> FuzzyMatch(query, name) <= Lev(query, w)
    ensures exists w :: w in SplitWhitespace(name) && FuzzyMatch(query, name) == Lev(query, w)
  {
    SplitEmptyIff(name);
    var words := SplitWhitespace(name);
    var r := MinDistance(query, words);
    var k :| 0 <= k < |words| && r.value == Lev(query, words[k]);
    assert words[k] in words;
  }

  /** A name made only of whitespace, a space among it, gets the sentinel. */
  lemma FuzzyMatchNoWord(query: seq<byte>, name: seq<byte>)
    requires SPACE in name && AllWhitespace(name)
    ensures FuzzyMatch(query, name) == USIZE_MAX
  {
    SplitEmptyIff(name);
  }

  /** For a single word the two strategies agree: the whole name is its
      only word. */
  lemma FuzzyMatchSingleWord(query: seq<byte>, name: seq<byte>)
    requires name != [] && NoWhitespace(name)
    ensures FuzzyMatch(query, name) == Lev(query, name)
    ensures MinDistance(query, SplitWhitespace(name)) == Some(Lev(query, name))
  {
    SplitSingleWord(name);
  }

  /** A score of zero means the query is the name itself (no space) or one
      of its words (with a space), and conversely. */
  lemma FuzzyMatchZeroIff(query: seq<byte>, name: seq<byte>)
    ensures FuzzyMatch(query, name) == 0
        <==> (SPACE !in name && query == name) || (SPACE in name && query in SplitWhitespace(name))
  {
    if SPACE !in name {
      LevZeroIffEqual(query, name);
    } else {
      var words := SplitWhitespace(name);
      SplitEmptyIff(name);
      if query in words {
        LevSelf(query);
        LevSymmetric(query, query);
        FuzzyMatchClosestWord(query, name);
      }
      if FuzzyMatch(query, name) == 0 {
        FuzzyMatchClosestWord(query, name);
        var w :| w in words && 0 == Lev(query, w);
        LevZeroIffEqual(query, w);
      }
    }
  }

  /**
   * A name whose words are separated by a tab and no space is compared
   * whole: for the query "ab" the name "ab<TAB>cd" scores at least 3 and
   * is dropped, although its first word is the query itself.
   */
  lemma TabSeparatedNameScoredWhole()
    ensures FuzzyMatch([97, 98], [97, 98, 9, 99, 100]) >= 3
    ensures SplitWhitespace([97, 98, 9, 99, 100]) == [[97, 98], [99, 100]]
    ensures Lev([97, 98], [97, 98]) == 0
  {
    var name: seq<byte> := [97, 98, 9, 99, 100];
    assert SPACE !in name;
    assert name == [97, 98] + [9] + [99, 100];
    SplitAt([97, 98], 9, [99, 100]);
    SplitSingleWord([97, 98]);
    SplitSingleWord([99, 100]);
    LevSelf([97, 98]);
  }
}
