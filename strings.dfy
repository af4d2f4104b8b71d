/** The few string operations of the scraper: `str.split`, `str.rsplit` with a
    split limit, and substring search. A string is a `seq<char>`. */
module Strings {

  /** Position of the first `c` in `s`, or `|s|` when `s` holds none. */
  function IndexOf(s: string, c: char): (i: nat)
    ensures i <= |s|
    ensures i < |s| ==> s[i] == c
    ensures forall j :: 0 <= j < i ==> s[j] != c
  {
    if |s| == 0 || s[0] == c then 0 else 1 + IndexOf(s[1..], c)
  }

  /** Position of the last `c` in `s`. */
  function LastIndexOf(s: string, c: char): (i: nat)
    requires c in s
    ensures i < |s| && s[i] == c
    ensures forall j :: i < j < |s| ==> s[j] != c
  {
    if s[|s| - 1] == c then |s| - 1
    else
      assert c in s[..|s| - 1] by {
        var k :| 0 <= k < |s| && s[k] == c;
        assert s[..|s| - 1][k] == c;
      }
      LastIndexOf(s[..|s| - 1], c)
  }

  /** The pieces glued back together with `sep` between neighbours (Python's `sep.join`). */
  function Join(parts: seq<string>, sep: char): string
  {
    if |parts| == 0 then ""
    else if |parts| == 1 then parts[0]
    else parts[0] + [sep] + Join(parts[1..], sep)
  }

  lemma {:induction false} JoinSnoc(parts: seq<string>, last: string, sep: char)
    requires |parts| >= 1
    ensures Join(parts + [last], sep) == Join(parts, sep) + [sep] + last
  {
    if |parts| > 1 {
      assert (parts + [last])[1..] == parts[1..] + [last];
      JoinSnoc(parts[1..], last, sep);
    }
  }

  /** Every piece of a join is found inside it, with the text around it. */
  lemma {:induction false} JoinInfix(parts: seq<string>, sep: char, k: nat)
    requires k < |parts|
    ensures exists before, after :: Join(parts, sep) == before + parts[k] + after
  {
    if |parts| == 1 {
      assert Join(parts, sep) == [] + parts[0] + [];
    } else if k == 0 {
      assert Join(parts, sep) == [] + parts[0] + ([sep] + Join(parts[1..], sep));
    } else {
      JoinInfix(parts[1..], sep, k - 1);
      var before, after :| Join(parts[1..], sep) == before + parts[1..][k - 1] + after;
      assert Join(parts, sep) == (parts[0] + [sep] + before) + parts[k] + after;
    }
  }

  /** Python's `s.split(sep)`: every piece between separators, empty pieces included. */
  function Split(s: string, sep: char): (parts: seq<string>)
    ensures |parts| >= 1
    decreases |s|
  {
    var i := IndexOf(s, sep);
    if i == |s| then [s] else [s[..i]] + Split(s[i + 1..], sep)
  }

  /** A split yields more than one piece exactly when the separator occurs. */
  lemma SplitSeveral(s: string, sep: char)
    ensures |Split(s, sep)| > 1 <==> sep in s
  {
    var i := IndexOf(s, sep);
    if i < |s| {
      assert s[i] == sep;
    }
  }

  /** No piece of a split holds the separator. */
  lemma {:induction false} SplitPiecesFree(s: string, sep: char)
    ensures forall k :: 0 <= k < |Split(s, sep)| ==> sep !in Split(s, sep)[k]
    decreases |s|
  {
    var i := IndexOf(s, sep);
    if i < |s| {
      SplitPiecesFree(s[i + 1..], sep);
    }
  }

  /** Joining the pieces of a split gives the text back. */
  lemma {:induction false} SplitJoin(s: string, sep: char)
    ensures Join(Split(s, sep), sep) == s
    decreases |s|
  {
    var i := IndexOf(s, sep);
    if i < |s| {
      var rest := s[i + 1..];
      SplitJoin(rest, sep);
      SplitCons(s, sep);
      JoinCons(s[..i], Split(rest, sep), sep);
      CutAround(s, i);
    }
  }

  /** With a separator present, the split is the text before it, then the split of the rest. */
  lemma SplitCons(s: string, sep: char)
    requires IndexOf(s, sep) < |s|
    ensures Split(s, sep) == [s[..IndexOf(s, sep)]] + Split(s[IndexOf(s, sep) + 1..], sep)
  {
  }

  /** `s` is what comes before position `i`, the character there, and what follows. */
  lemma CutAround(s: string, i: nat)
    requires i < |s|
    ensures s == s[..i] + [s[i]] + s[i + 1..]
  {
  }

  lemma JoinCons(head: string, tail: seq<string>, sep: char)
    requires |tail| >= 1
    ensures Join([head] + tail, sep) == head + [sep] + Join(tail, sep)
  {
    assert ([head] + tail)[1..] == tail;
  }

  /** The first piece of a split runs up to the first separator. */
  lemma SplitFirst(s: string, sep: char)
    ensures Split(s, sep)[0] == s[..IndexOf(s, sep)]
  {
  }

  /** The second piece of `s.split(sep)` runs from the first separator to the next one. */
  lemma SecondPiece(s: string, sep: char)
    requires sep in s
    ensures |Split(s, sep)| >= 2
    ensures var rest := s[IndexOf(s, sep) + 1..]; Split(s, sep)[1] == rest[..IndexOf(rest, sep)]
  {
    var i := IndexOf(s, sep);
    var rest := s[i + 1..];
    assert i < |s| by {
      var k :| 0 <= k < |s| && s[k] == sep;
    }
    var tail := Split(rest, sep);
    assert Split(s, sep) == [s[..i]] + tail;
    SplitFirst(rest, sep);
  }

  /** Python's `s.rsplit(sep, maxsplit)`: at most `maxsplit` cuts, taken from the right. */
  function RSplit(s: string, sep: char, maxsplit: nat): (parts: seq<string>)
    ensures 1 <= |parts| <= maxsplit + 1
    ensures forall k :: 1 <= k < |parts| ==> sep !in parts[k]
    ensures |parts| <= maxsplit ==> sep !in parts[0]
    ensures Join(parts, sep) == s
    decreases maxsplit
  {
    if maxsplit == 0 || sep !in s then [s]
    else
      var i := LastIndexOf(s, sep);
      var init := RSplit(s[..i], sep, maxsplit - 1);
      JoinSnoc(init, s[i + 1..], sep);
      assert s == s[..i] + [sep] + s[i + 1..];
      init + [s[i + 1..]]
  }

  /** `p` occurs in `s` as a contiguous substring. */
  predicate Contains(s: string, p: string)
    decreases |s|
  {
    p <= s || (|s| > 0 && Contains(s[1..], p))
  }

  /** `p` occurs in `s` starting at position `i`. */
  ghost predicate OccursAt(s: string, p: string, i: int)
  {
    0 <= i && i + |p| <= |s| && s[i..i + |p|] == p
  }

  /** `Contains` agrees with the positional definition of a substring occurrence. */
  lemma {:induction false} ContainsIff(s: string, p: string)
    ensures Contains(s, p) <==> exists i :: OccursAt(s, p, i)
  {
    if p <= s {
      assert OccursAt(s, p, 0);
    } else if |s| == 0 {
    } else {
      ContainsIff(s[1..], p);
      if Contains(s[1..], p) {
        var i :| OccursAt(s[1..], p, i);
        assert s[i + 1..i + 1 + |p|] == s[1..][i..i + |p|];
        assert OccursAt(s, p, i + 1);
      }
      if exists i :: OccursAt(s, p, i) {
        var i :| OccursAt(s, p, i);
        assert i != 0;
        assert s[1..][i - 1..i - 1 + |p|] == s[i..i + |p|];
        assert OccursAt(s[1..], p, i - 1);
      }
    }
  }

  /** Text that contains `p` still contains it once more text is put around it. */
  lemma ContainsWithin(before: string, t: string, after: string, p: string)
    requires Contains(t, p)
    ensures Contains(before + t + after, p)
  {
    ContainsIff(t, p);
    var i :| OccursAt(t, p, i);
    var s := before + t + after;
    assert s[|before| + i..|before| + i + |p|] == t[i..i + |p|];
    assert OccursAt(s, p, |before| + i);
    ContainsIff(s, p);
  }

  /** A pattern no shorter than the text occurs in it only as the whole text. */
  lemma ContainsNoShorter(s: string, p: string)
    requires |p| >= |s| && p != s
    ensures !Contains(s, p)
  {
    ContainsIff(s, p);
    assert s[0..|s|] == s;
  }
}
