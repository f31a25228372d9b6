/**
 * The Python string operations the requirement script relies on: `lower`,
 * one-character `replace`, `split` with a separator, `strip` with a character
 * set and `endswith`. Characters are Dafny `char`s; case folding covers the
 * ASCII letters only.
 */
module Text {

  /** `c.lower()` for one character (ASCII letters only). */
  function LowerChar(c: char): char {
    if 'A' <= c <= 'Z' then (c as int + 32) as char else c
  }

  predicate IsUpper(c: char) {
    'A' <= c <= 'Z'
  }

  /** `s.lower()`. */
  function Lower(s: string): (r: string)
    ensures |r| == |s|
    ensures forall i :: 0 <= i < |r| ==> !IsUpper(r[i])
  {
    seq(|s|, i requires 0 <= i < |s| => LowerChar(s[i]))
  }

  /** `s.replace(a, b)` for one-character `a` and `b`. */
  function Replace(s: string, a: char, b: char): (r: string)
    ensures |r| == |s|
    ensures a != b ==> a !in r
  {
    seq(|s|, i requires 0 <= i < |s| => if s[i] == a then b else s[i])
  }

  /** A string without upper-case letters is its own lower-case form. */
  lemma LowerFixed(s: string)
    requires forall i :: 0 <= i < |s| ==> !IsUpper(s[i])
    ensures Lower(s) == s
  {
    assert forall i :: 0 <= i < |s| ==> Lower(s)[i] == s[i];
  }

  /** Replacing a character that does not occur changes nothing. */
  lemma ReplaceFixed(s: string, a: char, b: char)
    requires a !in s
    ensures Replace(s, a, b) == s
  {
    assert forall i :: 0 <= i < |s| ==> Replace(s, a, b)[i] == s[i];
  }

  /** `s.endswith(suffix)`. */
  predicate EndsWith(s: string, suffix: string) {
    |suffix| <= |s| && s[|s| - |suffix|..] == suffix
  }

  /**
   * `s.split(sep)`: cut at every occurrence of `sep`, scanning left to right
   * without overlap. There is always at least one piece.
   */
  function Split(s: string, sep: string): (pieces: seq<string>)
    requires |sep| > 0
    ensures |pieces| >= 1
    decreases |s|
  {
    if |s| < |sep| then [s]
    else if s[..|sep|] == sep then [""] + Split(s[|sep|..], sep)
    else
      var rest := Split(s[1..], sep);
      [[s[0]] + rest[0]] + rest[1..]
  }

  /** `sep.join(pieces)`, the inverse of `Split`. */
  function Join(pieces: seq<string>, sep: string): string {
    if |pieces| == 0 then ""
    else if |pieces| == 1 then pieces[0]
    else pieces[0] + sep + Join(pieces[1..], sep)
  }

  lemma JoinConsHead(c: char, rest: seq<string>, sep: string)
    requires |rest| >= 1
    ensures Join([[c] + rest[0]] + rest[1..], sep) == [c] + Join(rest, sep)
  {
    var p := [[c] + rest[0]] + rest[1..];
    if |rest| > 1 {
      assert p[1..] == rest[1..];
    }
  }

  /** Joining the pieces with the separator gives back the string. */
  lemma {:induction false} SplitJoin(s: string, sep: string)
    requires |sep| > 0
    ensures Join(Split(s, sep), sep) == s
    decreases |s|
  {
    if |s| < |sep| {
    } else if s[..|sep|] == sep {
      var rest := Split(s[|sep|..], sep);
      SplitJoin(s[|sep|..], sep);
      assert ([""] + rest)[1..] == rest;
      assert s == sep + s[|sep|..];
    } else {
      var rest := Split(s[1..], sep);
      SplitJoin(s[1..], sep);
      JoinConsHead(s[0], rest, sep);
      assert s == [s[0]] + s[1..];
    }
  }

  /** With a one-character separator, no piece contains that character. */
  lemma {:induction false} SplitPiecesAvoidSep(s: string, c: char)
    ensures forall k :: 0 <= k < |Split(s, [c])| ==> c !in Split(s, [c])[k]
    decreases |s|
  {
    if |s| < 1 {
    } else if s[..1] == [c] {
      SplitPiecesAvoidSep(s[1..], c);
    } else {
      SplitPiecesAvoidSep(s[1..], c);
      var rest := Split(s[1..], [c]);
      assert s[0] != c;
      var pieces := [[s[0]] + rest[0]] + rest[1..];
      forall k | 0 <= k < |pieces|
        ensures c !in pieces[k]
      {
        if k > 0 {
          assert pieces[k] == rest[k];
        }
      }
    }
  }

  /** A string without the separator's first character splits into itself. */
  lemma {:induction false} SplitWithoutSep(s: string, sep: string)
    requires |sep| > 0 && sep[0] !in s
    ensures Split(s, sep) == [s]
    decreases |s|
  {
    if |s| >= |sep| {
      assert s[..|sep|][0] == s[0];
      SplitWithoutSep(s[1..], sep);
      assert [s[0]] + s[1..] == s;
    }
  }

  /** A separator after a head free of its first character cuts exactly there. */
  lemma {:induction false} SplitAtFirst(a: string, sep: string, b: string)
    requires |sep| > 0 && sep[0] !in a
    ensures Split(a + sep + b, sep) == [a] + Split(b, sep)
    decreases |a|
  {
    var s := a + sep + b;
    if |a| == 0 {
      assert s == sep + b;
      assert s[..|sep|] == sep;
      assert s[|sep|..] == b;
    } else {
      assert s[..|sep|][0] == a[0];
      assert s[1..] == a[1..] + sep + b;
      SplitAtFirst(a[1..], sep, b);
      assert [a[0]] + a[1..] == a;
    }
  }

  /** `s.lstrip(chars)`. */
  function LStrip(s: string, chars: string): (r: string)
    ensures |r| <= |s| && r == s[|s| - |r|..]
    ensures r == [] || r[0] !in chars
    ensures forall i :: 0 <= i < |s| - |r| ==> s[i] in chars
    decreases |s|
  {
    if |s| > 0 && s[0] in chars then LStrip(s[1..], chars) else s
  }

  /** `s.rstrip(chars)`. */
  function RStrip(s: string, chars: string): (r: string)
    ensures |r| <= |s| && r == s[..|r|]
    ensures r == [] || r[|r| - 1] !in chars
    ensures forall i :: |r| <= i < |s| ==> s[i] in chars
    decreases |s|
  {
    if |s| > 0 && s[|s| - 1] in chars then RStrip(s[..|s| - 1], chars) else s
  }

  /**
   * `s.strip(chars)`: drop every leading and trailing character that is in
   * `chars`. It removes a set of characters, not a suffix.
   */
  function Strip(s: string, chars: string): (r: string)
    ensures r == [] || (r[0] !in chars && r[|r| - 1] !in chars)
  {
    RStrip(LStrip(s, chars), chars)
  }

  lemma {:induction false} LStripKeeps(s: string, chars: string)
    requires s == [] || s[0] !in chars
    ensures LStrip(s, chars) == s
  {
  }

  lemma {:induction false} RStripDrops(s: string, tail: string, chars: string)
    requires forall i :: 0 <= i < |tail| ==> tail[i] in chars
    requires s == [] || s[|s| - 1] !in chars
    ensures RStrip(s + tail, chars) == s
    decreases |tail|
  {
    if |tail| > 0 {
      var t := s + tail;
      assert t[|t| - 1] == tail[|tail| - 1];
      assert t[..|t| - 1] == s + tail[..|tail| - 1];
      RStripDrops(s, tail[..|tail| - 1], chars);
    } else {
      assert s + tail == s;
    }
  }

  /**
   * A stem that neither starts nor ends with a character of `chars`, followed
   * by a suffix made of such characters, strips back to the stem.
   */
  lemma StripSuffix(stem: string, suffix: string, chars: string)
    requires stem != [] && stem[0] !in chars && stem[|stem| - 1] !in chars
    requires forall i :: 0 <= i < |suffix| ==> suffix[i] in chars
    ensures Strip(stem + suffix, chars) == stem
  {
    var s := stem + suffix;
    assert s[0] == stem[0];
    LStripKeeps(s, chars);
    RStripDrops(stem, suffix, chars);
  }

  lemma {:induction false} RStripKeeps(s: string, chars: string)
    requires s == [] || s[|s| - 1] !in chars
    ensures RStrip(s, chars) == s
  {
  }

  /** Stripping twice strips nothing more. */
  lemma StripIdempotent(s: string, chars: string)
    ensures Strip(Strip(s, chars), chars) == Strip(s, chars)
  {
    var r := Strip(s, chars);
    LStripKeeps(r, chars);
    RStripKeeps(r, chars);
  }
}
