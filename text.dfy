/**
 * The handful of Python `str` operations the search code relies on, at ASCII level:
 * `isspace`, `lower`, `strip`, `split()` with no argument, and `" ".join`.
 * Python's Unicode whitespace beyond ASCII and Unicode case mapping are not modelled.
 *
 * The functions carry only the facts their own termination needs; what they mean is
 * stated in the lemmas next to them, which proofs call where they need them.
 */
module Text {
  import opened Optional

  /** Python's `name or ''`: a missing (falsy) name becomes the empty string. */
  function OrEmpty(name: Option<string>): string {
    match name
    case Some(n) => n
    case None => ""
  }

  /** The ASCII characters for which Python's `str.isspace` holds. */
  predicate IsSpace(c: char) {
    c == ' ' || c == '\t' || c == '\n' || c == '\r' || c == '\U{0B}' || c == '\U{0C}' ||
    ('\U{1C}' <= c <= '\U{1F}')
  }

  function LowerChar(c: char): char {
    if 'A' <= c <= 'Z' then (c as int + 32) as char else c
  }

  /** `s.lower()`, ASCII letters only. */
  function Lower(s: string): string {
    seq(|s|, i requires 0 <= i < |s| => LowerChar(s[i]))
  }

  /**
   * Lowercasing keeps the length, turns each ASCII capital into its own small letter
   * (32 code points further on) and leaves every other character as it is.
   */
  lemma LowerAt(s: string, i: nat)
    requires i < |s|
    ensures |Lower(s)| == |s|
    ensures 'A' <= s[i] <= 'Z' ==> Lower(s)[i] as int == s[i] as int + 32 && 'a' <= Lower(s)[i] <= 'z'
    ensures !('A' <= s[i] <= 'Z') ==> Lower(s)[i] == s[i]
  {
  }

  lemma LowerIdempotent(s: string)
    ensures Lower(Lower(s)) == Lower(s)
  {
  }

  lemma LowerAppend(a: string, b: string)
    ensures Lower(a + b) == Lower(a) + Lower(b)
  {
  }

  /** A string with no whitespace at either end. */
  predicate IsStripped(s: string) {
    s == "" || (!IsSpace(s[0]) && !IsSpace(s[|s| - 1]))
  }

  predicate IsBlank(s: string) {
    forall i :: 0 <= i < |s| ==> IsSpace(s[i])
  }

  /** `s.lstrip()`. */
  function TrimLeft(s: string): (r: string)
    ensures |r| <= |s|
    decreases |s|
  {
    if |s| > 0 && IsSpace(s[0]) then TrimLeft(s[1..]) else s
  }

  /** `s.rstrip()`. */
  function TrimRight(s: string): (r: string)
    ensures |r| <= |s|
    decreases |s|
  {
    if |s| > 0 && IsSpace(s[|s| - 1]) then TrimRight(s[..|s| - 1]) else s
  }

  /** `s.lstrip()` drops exactly the whitespace prefix. */
  lemma {:induction false} TrimLeftSpec(s: string)
    ensures TrimLeft(s) == s[|s| - |TrimLeft(s)|..]
    ensures forall i :: 0 <= i < |s| - |TrimLeft(s)| ==> IsSpace(s[i])
    ensures TrimLeft(s) == "" || !IsSpace(TrimLeft(s)[0])
    decreases |s|
  {
    if |s| > 0 && IsSpace(s[0]) {
      TrimLeftSpec(s[1..]);
    }
  }

  /** `s.rstrip()` drops exactly the whitespace suffix. */
  lemma {:induction false} TrimRightSpec(s: string)
    ensures TrimRight(s) == s[..|TrimRight(s)|]
    ensures forall i :: |TrimRight(s)| <= i < |s| ==> IsSpace(s[i])
    ensures TrimRight(s) == "" || !IsSpace(TrimRight(s)[|TrimRight(s)| - 1])
    decreases |s|
  {
    if |s| > 0 && IsSpace(s[|s| - 1]) {
      TrimRightSpec(s[..|s| - 1]);
    }
  }

  /** `s.strip()`. */
  function Strip(s: string): string {
    TrimRight(TrimLeft(s))
  }

  /** A stripped name has no whitespace at either end and is empty exactly when the name is blank. */
  lemma StripSpec(s: string)
    ensures IsStripped(Strip(s))
    ensures Strip(s) == "" <==> IsBlank(s)
  {
    var t := TrimLeft(s);
    TrimLeftSpec(s);
    TrimRightSpec(t);
    var r := TrimRight(t);
    if t != "" {
      assert s[|s| - |t|] == t[0];
      var first := t[0];
      assert |r| > 0 || IsSpace(first);
      assert r[0] == t[0];
    }
  }

  /** Stripping removes exactly a whitespace padding around an already stripped text. */
  lemma {:induction false} StripPadding(p: string, s: string, q: string)
    requires IsBlank(p) && IsBlank(q) && IsStripped(s)
    ensures Strip(p + s + q) == s
  {
    if s == "" {
      assert IsBlank(p + s + q);
      StripSpec(p + s + q);
    } else {
      TrimLeftPadding(p, s + q);
      assert p + s + q == p + (s + q);
      TrimRightPadding(s, q);
    }
  }

  lemma {:induction false} TrimLeftPadding(p: string, t: string)
    requires IsBlank(p) && (t == "" || !IsSpace(t[0]))
    ensures TrimLeft(p + t) == t
    decreases |p|
  {
    if p == [] {
      assert p + t == t;
    } else {
      assert (p + t)[1..] == p[1..] + t;
      TrimLeftPadding(p[1..], t);
    }
  }

  lemma {:induction false} TrimRightPadding(s: string, q: string)
    requires IsBlank(q) && (s == "" || !IsSpace(s[|s| - 1]))
    ensures TrimRight(s + q) == s
    decreases |q|
  {
    if q == [] {
      assert s + q == s;
    } else {
      assert (s + q)[..|s + q| - 1] == s + q[..|q| - 1];
      TrimRightPadding(s, q[..|q| - 1]);
    }
  }

  /** Stripping an already stripped text changes nothing. */
  lemma StripOfStripped(s: string)
    requires IsStripped(s)
    ensures Strip(s) == s
  {
    StripPadding("", s, "");
    assert "" + s + "" == s;
  }

  lemma StripIdempotent(s: string)
    ensures Strip(Strip(s)) == Strip(s)
  {
    StripSpec(s);
    StripOfStripped(Strip(s));
  }

  /** A token of `str.split()`: non-empty and free of whitespace. */
  predicate IsWord(w: string) {
    w != "" && forall i :: 0 <= i < |w| ==> !IsSpace(w[i])
  }

  /** Length of the leading run of non-whitespace characters. */
  function WordEnd(t: string): (k: nat)
    ensures k <= |t|
    ensures t != "" && !IsSpace(t[0]) ==> k > 0
  {
    if |t| == 0 || IsSpace(t[0]) then 0 else 1 + WordEnd(t[1..])
  }

  /** The leading run ends at the first whitespace character, or at the end of the text. */
  lemma {:induction false} WordEndSpec(t: string)
    ensures forall i :: 0 <= i < WordEnd(t) ==> !IsSpace(t[i])
    ensures WordEnd(t) == |t| || IsSpace(t[WordEnd(t)])
  {
    if |t| > 0 && !IsSpace(t[0]) {
      WordEndSpec(t[1..]);
    }
  }

  /** `s.split()`: the maximal runs of non-whitespace, in order. */
  function Split(s: string): seq<string>
    decreases |s|
  {
    if s == "" then []
    else if IsSpace(s[0]) then Split(s[1..])
    else
      var k := WordEnd(s);
      [s[..k]] + Split(s[k..])
  }

  /** Every token of `split()` is a word. */
  lemma {:induction false} SplitWords(s: string)
    ensures forall k :: 0 <= k < |Split(s)| ==> IsWord(Split(s)[k])
    decreases |s|
  {
    if s != "" {
      if IsSpace(s[0]) {
        SplitWords(s[1..]);
      } else {
        var k := WordEnd(s);
        WordEndSpec(s);
        SplitWords(s[k..]);
        assert IsWord(s[..k]);
      }
    }
  }

  /** `" ".join(parts)`. */
  function SpaceJoin(parts: seq<string>): string {
    if |parts| == 0 then ""
    else if |parts| == 1 then parts[0]
    else parts[0] + " " + SpaceJoin(parts[1..])
  }

  /**
   * A text whose only whitespace is single ASCII spaces between non-whitespace
   * characters: no leading, trailing or repeated whitespace.
   */
  predicate Normalized(s: string) {
    forall i :: 0 <= i < |s| ==> SpaceWellPlaced(s, i)
  }

  /** Whitespace at position `i`, if any, is one ASCII space with a non-whitespace character on each side. */
  predicate SpaceWellPlaced(s: string, i: nat)
    requires i < |s|
  {
    IsSpace(s[i]) ==> s[i] == ' ' && 0 < i < |s| - 1 && !IsSpace(s[i - 1]) && !IsSpace(s[i + 1])
  }

  /** `needle` occurs in `hay` as a contiguous piece. */
  ghost predicate Contains(hay: string, needle: string) {
    exists i :: OccursAt(hay, needle, i)
  }

  predicate OccursAt(hay: string, needle: string, i: int) {
    0 <= i <= |hay| - |needle| && hay[i..i + |needle|] == needle
  }

  /** Joining words with single spaces gives a normalized text that starts with a word character. */
  lemma {:induction false} JoinWordsNormalized(ws: seq<string>)
    requires forall k :: 0 <= k < |ws| ==> IsWord(ws[k])
    ensures Normalized(SpaceJoin(ws))
    ensures ws != [] ==> SpaceJoin(ws) != "" && !IsSpace(SpaceJoin(ws)[0])
  {
    if |ws| == 1 {
      assert IsWord(ws[0]);
    } else if |ws| > 1 {
      var w, rest := ws[0], SpaceJoin(ws[1..]);
      assert IsWord(w);
      JoinWordsNormalized(ws[1..]);
      var r := w + " " + rest;
      assert r == SpaceJoin(ws);
      assert forall i :: 0 <= i < |w| ==> r[i] == w[i];
      assert forall i :: |w| < i < |r| ==> r[i] == rest[i - |w| - 1];
      forall i | 0 <= i < |r|
        ensures SpaceWellPlaced(r, i)
      {
        if i == |w| {
          assert r[i - 1] == w[|w| - 1];
          assert r[i + 1] == rest[0];
        } else if i > |w| {
          assert SpaceWellPlaced(rest, i - |w| - 1);
          if IsSpace(r[i]) {
            assert r[i - 1] == rest[i - |w| - 2];
            assert r[i + 1] == rest[i - |w|];
          }
        }
      }
    }
  }

  lemma {:induction false} SplitLeadingSpace(c: char, s: string)
    requires IsSpace(c)
    ensures Split([c] + s) == Split(s)
  {
    assert ([c] + s)[1..] == s;
  }

  lemma {:induction false} WordEndOfWord(w: string, rest: string)
    requires IsWord(w) && (rest == "" || IsSpace(rest[0]))
    ensures WordEnd(w + rest) == |w|
    decreases |w|
  {
    assert (w + rest)[1..] == w[1..] + rest;
    if |w| > 1 {
      WordEndOfWord(w[1..], rest);
    } else {
      assert w[1..] + rest == rest;
    }
  }

  /** A run of non-whitespace ends no later than a following whitespace character. */
  lemma {:induction false} WordEndBeforeSpace(a: string, t: string)
    requires t == "" || IsSpace(t[0])
    ensures WordEnd(a + t) == WordEnd(a)
    decreases |a|
  {
    if a == "" {
      assert a + t == t;
    } else {
      assert (a + t)[0] == a[0];
      assert (a + t)[1..] == a[1..] + t;
      WordEndBeforeSpace(a[1..], t);
    }
  }

  /** Splitting a text cut just before a whitespace character splits each side separately. */
  lemma {:induction false} SplitConcat(a: string, t: string)
    requires t == "" || IsSpace(t[0])
    ensures Split(a + t) == Split(a) + Split(t)
    decreases |a|
  {
    if a == "" {
      assert a + t == t;
    } else if IsSpace(a[0]) {
      assert (a + t)[0] == a[0];
      assert (a + t)[1..] == a[1..] + t;
      SplitConcat(a[1..], t);
    } else {
      assert (a + t)[0] == a[0];
      var k := WordEnd(a);
      WordEndBeforeSpace(a, t);
      assert (a + t)[..k] == a[..k];
      assert (a + t)[k..] == a[k..] + t;
      SplitConcat(a[k..], t);
    }
  }

  /** The words of two texts joined by a space are the words of the first, then those of the second. */
  lemma SplitAroundSpace(a: string, b: string)
    ensures Split(a + " " + b) == Split(a) + Split(b)
  {
    assert a + " " + b == a + (" " + b);
    SplitConcat(a, " " + b);
    SplitLeadingSpace(' ', b);
    assert [' '] + b == " " + b;
  }

  /** Round trip: splitting words joined by single spaces gives back the words. */
  lemma {:induction false} SplitJoinWords(ws: seq<string>)
    requires forall k :: 0 <= k < |ws| ==> IsWord(ws[k])
    ensures Split(SpaceJoin(ws)) == ws
  {
    if |ws| == 1 {
      var w := ws[0];
      assert IsWord(w);
      WordEndOfWord(w, "");
      assert w + "" == w;
      assert w[|w|..] == "";
      assert Split(w) == [w[..|w|]] + Split(w[|w|..]);
    } else if |ws| > 1 {
      var w, rest := ws[0], SpaceJoin(ws[1..]);
      assert IsWord(w);
      var s := w + " " + rest;
      assert s == SpaceJoin(ws);
      assert s == w + (" " + rest);
      WordEndOfWord(w, " " + rest);
      assert s[..|w|] == w;
      assert s[|w|..] == [' '] + rest;
      assert Split(s) == [w] + Split([' '] + rest);
      SplitLeadingSpace(' ', rest);
      SplitJoinWords(ws[1..]);
    }
  }

  lemma {:induction false} NormalizedAfterSpace(s: string, k: nat)
    requires Normalized(s) && k < |s| && IsSpace(s[k])
    ensures Normalized(s[k + 1..]) && s[k + 1..] != ""
  {
    var s' := s[k + 1..];
    assert SpaceWellPlaced(s, k);
    forall i | 0 <= i < |s'|
      ensures SpaceWellPlaced(s', i)
    {
      assert SpaceWellPlaced(s, i + k + 1);
      if IsSpace(s'[i]) {
        assert s'[i] == s[i + k + 1];
        assert i != 0;
        assert s'[i - 1] == s[i + k];
        assert s'[i + 1] == s[i + k + 2];
      }
    }
  }

  lemma {:induction false} JoinCons(w: string, ws: seq<string>)
    requires ws != []
    ensures SpaceJoin([w] + ws) == w + " " + SpaceJoin(ws)
  {
    assert ([w] + ws)[1..] == ws;
  }

  lemma {:induction false} RejoinAtSpace(s: string, k: nat, ws: seq<string>)
    requires k < |s| && s[k] == ' ' && ws != []
    requires SpaceJoin(ws) == s[k + 1..]
    ensures SpaceJoin([s[..k]] + ws) == s
  {
    JoinCons(s[..k], ws);
    assert s == s[..k] + " " + s[k + 1..];
  }

  /** A normalized text is rebuilt exactly by joining its own words. */
  lemma {:induction false} NormalizedFixpoint(s: string)
    requires Normalized(s)
    ensures SpaceJoin(Split(s)) == s
    decreases |s|
  {
    if s != "" {
      assert SpaceWellPlaced(s, 0);
      var k := WordEnd(s);
      WordEndSpec(s);
      var w := s[..k];
      assert Split(s) == [w] + Split(s[k..]);
      if k == |s| {
        assert s[k..] == "";
        assert w == s;
        assert Split(s) == [s];
      } else {
        var s' := s[k + 1..];
        assert s[k..] == [s[k]] + s';
        SplitLeadingSpace(s[k], s');
        NormalizedAfterSpace(s, k);
        NormalizedFixpoint(s');
        var ws := Split(s');
        assert ws == [] ==> SpaceJoin(ws) == "";
        assert SpaceWellPlaced(s, k);
        RejoinAtSpace(s, k, ws);
        assert Split(s) == [w] + ws;
      }
    }
  }

  /**
   * `" ".join(c.split())` is the one normalized text with the same words as `c`:
   * whitespace runs collapse to single spaces and the ends are trimmed.
   */
  lemma CollapseCharacterisation(c: string, x: string)
    ensures Normalized(x) && Split(x) == Split(c) <==> x == SpaceJoin(Split(c))
  {
    if x == SpaceJoin(Split(c)) {
      SplitWords(c);
      JoinWordsNormalized(Split(c));
      SplitJoinWords(Split(c));
    }
    if Normalized(x) && Split(x) == Split(c) {
      NormalizedFixpoint(x);
    }
  }

  /** Joining non-empty parts gives the empty text exactly when there are no parts. */
  lemma {:induction false} JoinEmptyIff(parts: seq<string>)
    requires forall k :: 0 <= k < |parts| ==> parts[k] != ""
    ensures SpaceJoin(parts) == "" <==> parts == []
  {
    if |parts| > 1 {
      assert |SpaceJoin(parts)| >= |parts[0]| + 1;
    } else if |parts| == 1 {
      assert parts[0] != "";
    }
  }

  /** Every part occurs in the joined text. */
  lemma {:induction false} JoinContainsPart(parts: seq<string>, k: nat)
    requires k < |parts|
    ensures Contains(SpaceJoin(parts), parts[k])
  {
    var p := parts[k];
    if |parts| == 1 || k == 0 {
      assert SpaceJoin(parts)[0..|p|] == p;
      assert OccursAt(SpaceJoin(parts), p, 0);
    } else {
      var rest := SpaceJoin(parts[1..]);
      JoinContainsPart(parts[1..], k - 1);
      var i :| OccursAt(rest, p, i);
      var j := |parts[0]| + 1 + i;
      assert SpaceJoin(parts) == parts[0] + " " + rest;
      assert SpaceJoin(parts)[j..j + |p|] == rest[i..i + |p|];
      assert OccursAt(SpaceJoin(parts), p, j);
    }
  }
}
