/** The `java.lang.String` operations the query builder relies on, on `seq<char>`.
    Case mapping covers ASCII letters only. */
module JavaString {

  // ---------------------------------------------------------------------
  // Case: toLowerCase, equalsIgnoreCase
  // ---------------------------------------------------------------------

  function LowerChar(c: char): char {
    if 'A' <= c <= 'Z' then (c as int + 32) as char else c
  }

  function ToLower(s: string): (r: string)
    ensures |r| == |s|
    ensures forall i :: 0 <= i < |s| ==> r[i] == LowerChar(s[i])
  {
    seq(|s|, i requires 0 <= i < |s| => LowerChar(s[i]))
  }

  predicate EqualsIgnoreCase(a: string, b: string) {
    |a| == |b| && forall i :: 0 <= i < |a| ==> LowerChar(a[i]) == LowerChar(b[i])
  }

  /** Two strings are equal ignoring case exactly when their lower-case forms are equal. */
  lemma EqualsIgnoreCaseIff(a: string, b: string)
    ensures EqualsIgnoreCase(a, b) <==> ToLower(a) == ToLower(b)
  {
    if ToLower(a) == ToLower(b) {
      assert |a| == |b|;
      forall i | 0 <= i < |a|
        ensures LowerChar(a[i]) == LowerChar(b[i])
      {
        assert ToLower(a)[i] == ToLower(b)[i];
      }
    }
  }

  // ---------------------------------------------------------------------
  // contains
  // ---------------------------------------------------------------------

  predicate OccursAt(s: string, sub: string, i: int) {
    0 <= i && i + |sub| <= |s| && s[i..i + |sub|] == sub
  }

  /** `s.contains(sub)`, scanning from the left. */
  predicate Contains(s: string, sub: string)
    decreases |s|
  {
    (|sub| <= |s| && s[..|sub|] == sub) || (|s| > 0 && Contains(s[1..], sub))
  }

  lemma {:induction false} ContainsIff(s: string, sub: string)
    ensures Contains(s, sub) <==> exists i :: OccursAt(s, sub, i)
    decreases |s|
  {
    if |s| > 0 {
      ContainsIff(s[1..], sub);
      if exists i :: OccursAt(s[1..], sub, i) {
        var i :| OccursAt(s[1..], sub, i);
        assert s[i + 1..i + 1 + |sub|] == s[1..][i..i + |sub|];
        assert OccursAt(s, sub, i + 1);
      }
      if exists i :: OccursAt(s, sub, i) {
        var i :| OccursAt(s, sub, i);
        if i > 0 {
          assert s[1..][i - 1..i - 1 + |sub|] == s[i..i + |sub|];
          assert OccursAt(s[1..], sub, i - 1);
        } else {
          assert s[0..|sub|] == s[..|sub|];
        }
      }
      if |sub| <= |s| && s[..|sub|] == sub {
        assert s[0..0 + |sub|] == s[..|sub|];
        assert OccursAt(s, sub, 0);
      }
    } else if |sub| == 0 {
      assert OccursAt(s, sub, 0);
    } else {
      assert !Contains(s, sub);
    }
  }

  // ---------------------------------------------------------------------
  // Joining with a separator, and replaceAll(" OR $", "")
  // ---------------------------------------------------------------------

  /** Items separated by `sep`, as `String.join` would write them. */
  function Join(items: seq<string>, sep: string): string
    decreases |items|
  {
    if |items| == 0 then ""
    else if |items| == 1 then items[0]
    else items[0] + sep + Join(items[1..], sep)
  }

  /** What a loop `for (x : items) b.append(x).append(sep)` leaves in the builder. */
  function Terminated(items: seq<string>, sep: string): string
    decreases |items|
  {
    if |items| == 0 then "" else items[0] + sep + Terminated(items[1..], sep)
  }

  predicate EndsWith(s: string, suffix: string) {
    |suffix| <= |s| && s[|s| - |suffix|..] == suffix
  }

  /** `s.replaceAll(" OR $", "")` with `suffix == " OR "`: removes one trailing occurrence.
      (Java's `$` also matches before a final line terminator; the strings this is applied
      to always end with a space when non-empty, so that case never arises.) */
  function StripSuffix(s: string, suffix: string): string {
    if EndsWith(s, suffix) then s[..|s| - |suffix|] else s
  }

  lemma {:induction false} TerminatedIsJoinPlusSep(items: seq<string>, sep: string)
    requires |items| > 0
    ensures Terminated(items, sep) == Join(items, sep) + sep
    decreases |items|
  {
    if |items| > 1 {
      TerminatedIsJoinPlusSep(items[1..], sep);
    }
  }

  /** Appending a separator after every item and then stripping the trailing one
      yields exactly the items joined by the separator; no items give "". */
  lemma StripTerminated(items: seq<string>, sep: string)
    requires |sep| > 0
    ensures StripSuffix(Terminated(items, sep), sep) == Join(items, sep)
  {
    if |items| > 0 {
      TerminatedIsJoinPlusSep(items, sep);
      var s := Join(items, sep) + sep;
      assert s[|s| - |sep|..] == sep;
      assert s[..|s| - |sep|] == Join(items, sep);
    }
  }

  // ---------------------------------------------------------------------
  // String.split(" ")
  // ---------------------------------------------------------------------

  /** The pieces between every pair of consecutive spaces, empty ones included. */
  function Pieces(s: string): (r: seq<string>)
    ensures |r| > 0
    decreases |s|
  {
    if |s| == 0 then [""]
    else
      var rest := Pieces(s[1..]);
      if s[0] == ' ' then [""] + rest else [[s[0]] + rest[0]] + rest[1..]
  }

  function DropTrailingEmpty(ps: seq<string>): (r: seq<string>)
    ensures |r| <= |ps| && r == ps[..|r|]
    ensures |r| > 0 ==> r[|r| - 1] != ""
    ensures forall i :: |r| <= i < |ps| ==> ps[i] == ""
    decreases |ps|
  {
    if |ps| > 0 && ps[|ps| - 1] == "" then DropTrailingEmpty(ps[..|ps| - 1]) else ps
  }

  /** `s.split(" ")`: the input itself when it has no space; otherwise every piece
      between spaces with the trailing empty pieces removed. */
  function SplitOnSpace(s: string): seq<string> {
    if ' ' !in s then [s] else DropTrailingEmpty(Pieces(s))
  }

  predicate NoSpace(s: string) {
    ' ' !in s
  }

  lemma PiecesStep(s: string)
    requires |s| > 0
    ensures var rest := Pieces(s[1..]);
      Pieces(s) == if s[0] == ' ' then [""] + rest else [[s[0]] + rest[0]] + rest[1..]
  {
  }

  lemma JoinCons(items: seq<string>, sep: string)
    requires |items| >= 2
    ensures Join(items, sep) == items[0] + sep + Join(items[1..], sep)
  {
  }

  /** Joining the pieces with single spaces gives the text back. */
  lemma {:induction false} PiecesRoundTrip(s: string)
    ensures Join(Pieces(s), " ") == s
    decreases |s|
  {
    if |s| > 0 {
      PiecesRoundTrip(s[1..]);
      PiecesStep(s);
      var rest := Pieces(s[1..]);
      var ps := Pieces(s);
      if s[0] == ' ' {
        JoinCons(ps, " ");
        assert ps[1..] == rest;
      } else if |rest| == 1 {
        assert ps == [[s[0]] + rest[0]];
      } else {
        JoinCons(ps, " ");
        JoinCons(rest, " ");
        assert ps[1..] == rest[1..];
        StringAssoc([s[0]], rest[0], " " + Join(rest[1..], " "));
        StringAssoc([s[0]] + rest[0], " ", Join(rest[1..], " "));
        StringAssoc(rest[0], " ", Join(rest[1..], " "));
      }
      assert s == [s[0]] + s[1..];
    }
  }

  lemma StringAssoc(a: string, b: string, c: string)
    ensures (a + b) + c == a + (b + c)
  {
  }

  /** No piece contains a space. */
  lemma {:induction false} PiecesHaveNoSpace(s: string)
    ensures forall i :: 0 <= i < |Pieces(s)| ==> NoSpace(Pieces(s)[i])
    decreases |s|
  {
    if |s| > 0 {
      PiecesHaveNoSpace(s[1..]);
      PiecesStep(s);
      var rest := Pieces(s[1..]);
      var ps := Pieces(s);
      forall i | 0 <= i < |ps| ensures NoSpace(ps[i]) {
        if s[0] == ' ' {
          if i > 0 { assert ps[i] == rest[i - 1]; }
        } else if i == 0 {
          assert NoSpace(rest[0]);
          assert ps[0] == [s[0]] + rest[0];
        } else {
          assert ps[i] == rest[i];
        }
      }
    }
  }

  /** No token `split(" ")` returns contains a space. */
  lemma SplitTokensHaveNoSpace(s: string)
    ensures forall i :: 0 <= i < |SplitOnSpace(s)| ==> NoSpace(SplitOnSpace(s)[i])
  {
    if ' ' in s {
      PiecesHaveNoSpace(s);
    }
  }

  lemma {:induction false} PiecesOfFieldAndWord(f: string, d: string)
    requires NoSpace(f) && NoSpace(d)
    ensures Pieces(f + " " + d) == [f, d]
    decreases |f|
  {
    if |f| == 0 {
      assert f + " " + d == [' '] + d;
      assert (f + " " + d)[1..] == d;
      PiecesOfWord(d);
    } else {
      assert (f + " " + d)[1..] == f[1..] + " " + d;
      PiecesOfFieldAndWord(f[1..], d);
      assert f == [f[0]] + f[1..];
    }
  }

  lemma {:induction false} PiecesOfWord(d: string)
    requires NoSpace(d)
    ensures Pieces(d) == [d]
    decreases |d|
  {
    if |d| > 0 {
      PiecesOfWord(d[1..]);
      assert d == [d[0]] + d[1..];
    }
  }

  /** `"field dir".split(" ")` is `[field, dir]` when neither part holds a space
      and the direction is not empty. */
  lemma SplitFieldAndDirection(f: string, d: string)
    requires NoSpace(f) && NoSpace(d) && d != ""
    ensures SplitOnSpace(f + " " + d) == [f, d]
  {
    PiecesOfFieldAndWord(f, d);
    assert (f + " " + d)[|f|] == ' ';
  }
}
