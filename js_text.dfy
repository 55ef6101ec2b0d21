/** The JavaScript string built-ins the page script relies on, stated over
    Dafny strings: white space as `String.prototype.trim` and the regular
    expression class `\s` both understand it, `trim` itself, the first index
    of a character, and the number of times a character occurs. */
module JsText {

  /** ECMAScript WhiteSpace and LineTerminator code points: tab, line feed,
      vertical tab, form feed, carriage return, the space separators, the
      line and paragraph separators and the byte order mark. `trim` strips
      exactly these and `\s` matches exactly these, so one predicate serves
      both. */
  predicate IsSpace(c: char) {
    ('\t' <= c <= '\r') || c == ' ' || c == '\U{A0}' || c == '\U{1680}'
    || ('\U{2000}' <= c <= '\U{200A}') || c == '\U{2028}' || c == '\U{2029}'
    || c == '\U{202F}' || c == '\U{205F}' || c == '\U{3000}' || c == '\U{FEFF}'
  }

  predicate AllSpace(s: string) {
    forall i :: 0 <= i < |s| ==> IsSpace(s[i])
  }

  /** A string `trim` leaves as it is: empty, or neither end is white space. */
  predicate IsTrimmed(s: string) {
    s == [] || (!IsSpace(s[0]) && !IsSpace(s[|s| - 1]))
  }

  /** The index of the first character of `s` that is not white space, or
      `|s|` when there is none. */
  function ContentStart(s: string): (lo: nat)
    ensures lo <= |s|
    ensures forall i :: 0 <= i < lo ==> IsSpace(s[i])
    ensures lo < |s| ==> !IsSpace(s[lo])
  {
    if s == [] || !IsSpace(s[0]) then 0 else 1 + ContentStart(s[1..])
  }

  /** Scanning back from `hi` no further than `lo`, the index just past the
      last character that is not white space, or `lo` when there is none. */
  function ContentEnd(s: string, lo: nat, hi: nat): (end: nat)
    requires lo <= hi <= |s|
    ensures lo <= end <= hi
    ensures forall i :: end <= i < hi ==> IsSpace(s[i])
    ensures end > lo ==> !IsSpace(s[end - 1])
    decreases hi
  {
    if hi == lo || !IsSpace(s[hi - 1]) then hi else ContentEnd(s, lo, hi - 1)
  }

  /** `String.prototype.trim`: the slice of `s` between its leading and its
      trailing white space. It has no white space at either end, and it is
      empty exactly when `s` is all white space. */
  function Trim(s: string): (r: string)
    ensures IsTrimmed(r)
    ensures r == [] <==> AllSpace(s)
  {
    var lo := ContentStart(s);
    s[lo..ContentEnd(s, lo, |s|)]
  }

  /** What `trim` returns is a slice of `s` with only white space around it. */
  lemma {:induction false} TrimIsSlice(s: string)
    ensures var lo := ContentStart(s);
            var hi := ContentEnd(s, lo, |s|);
            Trim(s) == s[lo..hi] && AllSpace(s[..lo]) && AllSpace(s[hi..])
  {
    var lo := ContentStart(s);
    var hi := ContentEnd(s, lo, |s|);
    assert forall i :: 0 <= i < lo ==> s[..lo][i] == s[i];
    assert forall i :: 0 <= i < |s| - hi ==> s[hi..][i] == s[hi + i];
  }

  /** A string made of white space, then a non-empty trimmed core, then
      white space, trims to exactly that core. */
  lemma {:induction false} TrimOfPadded(pre: string, core: string, post: string)
    requires AllSpace(pre) && AllSpace(post) && IsTrimmed(core) && core != []
    ensures Trim(pre + core + post) == core
  {
    var s := pre + core + post;
    var lo := ContentStart(s);
    assert s[|pre|] == core[0];
    assert forall i :: 0 <= i < |pre| ==> s[i] == pre[i];
    assert lo == |pre|;
    var hi := ContentEnd(s, lo, |s|);
    var e := |pre| + |core|;
    assert s[e - 1] == core[|core| - 1];
    assert forall i :: e <= i < |s| ==> s[i] == post[i - e];
    assert hi == e;
    assert s[lo..hi] == core;
  }

  /** Padding a string with white space on either side does not change what
      `trim` makes of it. */
  lemma {:induction false} TrimIgnoresPadding(pre: string, s: string, post: string)
    requires AllSpace(pre) && AllSpace(post)
    ensures Trim(pre + s + post) == Trim(s)
  {
    if AllSpace(s) {
      AllSpaceConcat(pre, s);
      AllSpaceConcat(pre + s, post);
    } else {
      TrimIsSlice(s);
      var lo := ContentStart(s);
      var hi := ContentEnd(s, lo, |s|);
      Regroup(pre, s, lo, hi, post);
      AllSpaceConcat(pre, s[..lo]);
      AllSpaceConcat(s[hi..], post);
      TrimOfPadded(pre + s[..lo], s[lo..hi], s[hi..] + post);
    }
  }

  lemma {:induction false} Regroup(pre: string, s: string, lo: nat, hi: nat, post: string)
    requires lo <= hi <= |s|
    ensures pre + s + post == (pre + s[..lo]) + s[lo..hi] + (s[hi..] + post)
  {
    assert s == s[..lo] + s[lo..hi] + s[hi..];
  }

  lemma {:induction false} AllSpaceConcat(a: string, b: string)
    requires AllSpace(a) && AllSpace(b)
    ensures AllSpace(a + b)
  {
    forall i | 0 <= i < |a + b| ensures IsSpace((a + b)[i]) {
      if i >= |a| { assert (a + b)[i] == b[i - |a|]; }
    }
  }

  /** `trim` returns a trimmed string unchanged, so it is idempotent. */
  lemma {:induction false} TrimOfTrimmed(s: string)
    requires IsTrimmed(s)
    ensures Trim(s) == s
  {
    if s != [] {
      TrimOfPadded([], s, []);
      assert [] + s + [] == s;
    }
  }

  lemma {:induction false} TrimIdempotent(s: string)
    ensures Trim(Trim(s)) == Trim(s)
  {
    TrimOfTrimmed(Trim(s));
  }

  /** The first index at which `c` occurs in `s`, or `|s|` when it does not
      occur (the model of `indexOf`, with `|s|` in place of -1). */
  function FirstIndex(s: string, c: char): (r: nat)
    ensures r <= |s|
    ensures r < |s| ==> s[r] == c
    ensures forall i :: 0 <= i < r ==> s[i] != c
  {
    if s == [] then 0
    else if s[0] == c then 0
    else 1 + FirstIndex(s[1..], c)
  }

  /** The number of times `c` occurs in `s`. */
  function CountOf(s: string, c: char): nat {
    if s == [] then 0
    else (if s[0] == c then 1 else 0) + CountOf(s[1..], c)
  }

  lemma {:induction false} CountOfZero(s: string, c: char)
    ensures CountOf(s, c) == 0 <==> c !in s
  {
    if s != [] {
      CountOfZero(s[1..], c);
      assert s == [s[0]] + s[1..];
    }
  }

  lemma {:induction false} CountOfConcat(a: string, b: string, c: char)
    ensures CountOf(a + b, c) == CountOf(a, c) + CountOf(b, c)
  {
    if a != [] {
      assert (a + b)[1..] == a[1..] + b;
      CountOfConcat(a[1..], b, c);
    } else {
      assert a + b == b;
    }
  }

  /** `c` occurs exactly once in `s` if and only if it occurs and not again
      after its first occurrence. */
  lemma {:induction false} CountOfOne(s: string, c: char)
    ensures CountOf(s, c) == 1 <==>
            FirstIndex(s, c) < |s| && c !in s[FirstIndex(s, c) + 1..]
  {
    if s != [] {
      if s[0] == c {
        CountOfZero(s[1..], c);
      } else {
        CountOfOne(s[1..], c);
        if FirstIndex(s[1..], c) < |s[1..]| {
          assert s[FirstIndex(s, c) + 1..] == s[1..][FirstIndex(s[1..], c) + 1..];
        }
      }
    }
  }
}
