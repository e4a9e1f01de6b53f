/** The few Python string operations the core relies on, over `seq<char>`. A Dafny
  * `char` is a Unicode scalar value; a Python `str` element is any code point and may
  * be a lone surrogate, which this model leaves out. */
module PyText {

  /** The characters for which Python's `str.isspace()` holds; these are the
    * characters `str.strip()` removes when called without arguments. */
  predicate IsSpace(c: char)
  {
    ('\t' <= c <= '\r') || ('\U{1C}' <= c <= '\U{1F}') || c == ' '
    || c == '\U{85}' || c == '\U{A0}' || c == '\U{1680}'
    || ('\U{2000}' <= c <= '\U{200A}') || c == '\U{2028}' || c == '\U{2029}'
    || c == '\U{202F}' || c == '\U{205F}' || c == '\U{3000}'
  }

  /** Empty or whitespace only: the strings that are falsy after `strip()`. */
  predicate IsBlank(s: string)
  {
    forall i :: 0 <= i < |s| ==> IsSpace(s[i])
  }

  /** `s.rstrip()` */
  function StripRight(s: string): (r: string)
    ensures |r| <= |s|
    ensures r == [] <==> IsBlank(s)
    ensures r != [] ==> r[0] == s[0] && !IsSpace(r[|r| - 1])
    decreases |s|
  {
    if s != [] && IsSpace(s[|s| - 1]) then
      assert s == s[..|s| - 1] + [s[|s| - 1]];
      BlankConcat(s[..|s| - 1], [s[|s| - 1]]);
      StripRight(s[..|s| - 1])
    else
      s
  }

  /** `s.lstrip()` */
  function StripLeft(s: string): (r: string)
    ensures |r| <= |s|
    ensures r == [] <==> IsBlank(s)
    ensures r != [] ==> !IsSpace(r[0]) && r[|r| - 1] == s[|s| - 1]
    decreases |s|
  {
    if s != [] && IsSpace(s[0]) then
      assert s == [s[0]] + s[1..];
      BlankConcat([s[0]], s[1..]);
      StripLeft(s[1..])
    else
      s
  }

  /** `s.strip()`: whitespace goes from both ends, whitespace inside stays. */
  function Strip(s: string): (r: string)
    ensures |r| <= |s|
    ensures r == [] <==> IsBlank(s)
    ensures r != [] ==> !IsSpace(r[0]) && !IsSpace(r[|r| - 1])
  {
    StripLeft(StripRight(s))
  }

  lemma BlankConcat(a: string, b: string)
    ensures IsBlank(a + b) <==> IsBlank(a) && IsBlank(b)
  {
    if IsBlank(a + b) {
      forall i | 0 <= i < |a| ensures IsSpace(a[i]) { assert a[i] == (a + b)[i]; }
      forall i | 0 <= i < |b| ensures IsSpace(b[i]) { assert b[i] == (a + b)[|a| + i]; }
    }
    if IsBlank(a) && IsBlank(b) {
      forall i | 0 <= i < |a + b| ensures IsSpace((a + b)[i]) {
        if i < |a| { assert (a + b)[i] == a[i]; } else { assert (a + b)[i] == b[i - |a|]; }
      }
    }
  }

  lemma {:induction false} StripTrailingSpace(s: string)
    ensures Strip(s + " ") == Strip(s)
  {
    assert (s + " ")[..|s|] == s;
  }

  /** `rstrip` only removes characters from the end. */
  lemma {:induction false} StripRightPrefix(s: string)
    ensures StripRight(s) == s[..|StripRight(s)|]
    decreases |s|
  {
    if s != [] && IsSpace(s[|s| - 1]) {
      StripRightPrefix(s[..|s| - 1]);
      assert s[..|s| - 1][..|StripRight(s)|] == s[..|StripRight(s)|];
    }
  }

  /** `lstrip` only removes characters from the start. */
  lemma {:induction false} StripLeftSuffix(s: string)
    ensures StripLeft(s) == s[|s| - |StripLeft(s)|..]
    decreases |s|
  {
    if s != [] && IsSpace(s[0]) {
      StripLeftSuffix(s[1..]);
      assert s[1..][|s| - 1 - |StripLeft(s)|..] == s[|s| - |StripLeft(s)|..];
    }
  }

  /** What `rstrip` cuts off the end is whitespace. */
  lemma {:induction false} StripRightRemovesBlank(s: string)
    ensures |StripRight(s)| <= |s| && IsBlank(s[|StripRight(s)|..])
    decreases |s|
  {
    if s != [] && IsSpace(s[|s| - 1]) {
      var init := s[..|s| - 1];
      StripRightRemovesBlank(init);
      var n := |StripRight(s)|;
      assert s[n..] == init[n..] + [s[|s| - 1]];
      BlankConcat(init[n..], [s[|s| - 1]]);
    }
  }

  /** What `lstrip` cuts off the start is whitespace. */
  lemma {:induction false} StripLeftRemovesBlank(s: string)
    ensures |StripLeft(s)| <= |s| && IsBlank(s[..|s| - |StripLeft(s)|])
    decreases |s|
  {
    if s != [] && IsSpace(s[0]) {
      var tail := s[1..];
      StripLeftRemovesBlank(tail);
      var n := |s| - |StripLeft(s)|;
      assert s[..n] == [s[0]] + tail[..n - 1];
      BlankConcat([s[0]], tail[..n - 1]);
    }
  }

  /** `strip` keeps one contiguous stretch of the string and changes none of it;
    * what it drops on either side is whitespace only. */
  lemma StripInfix(s: string) returns (i: nat, j: nat)
    ensures i <= j <= |s| && Strip(s) == s[i..j]
    ensures IsBlank(s[..i]) && IsBlank(s[j..])
  {
    var r := StripRight(s);
    StripRightPrefix(s);
    StripLeftSuffix(r);
    StripRightRemovesBlank(s);
    StripLeftRemovesBlank(r);
    j := |r|;
    i := |r| - |StripLeft(r)|;
    assert s[..j][i..] == s[i..j];
    assert s[..i] == r[..i];
  }

  /** A character the string does not hold is not in its stripped form either. */
  lemma StripKeepsOut(c: char, s: string)
    requires c !in s
    ensures c !in Strip(s)
  {
    var i, j := StripInfix(s);
    forall k | i <= k < j ensures s[k] != c { }
    assert forall k :: 0 <= k < |s[i..j]| ==> s[i..j][k] == s[i + k];
  }


  /** `sep.join(parts)`: the parts in order with one separator between neighbours, so
    * it starts with the first part and its length is the parts' total length plus one
    * separator fewer than there are parts. */
  function Join(sep: string, parts: seq<string>): (r: string)
    ensures parts != [] ==> parts[0] <= r
    ensures parts != [] ==> |r| == TotalLength(parts) + (|parts| - 1) * |sep|
    ensures parts == [] ==> r == ""
    decreases |parts|
  {
    if parts == [] then ""
    else if |parts| == 1 then parts[0]
    else parts[0] + sep + Join(sep, parts[1..])
  }

  function TotalLength(parts: seq<string>): nat
    decreases |parts|
  {
    if parts == [] then 0 else |parts[0]| + TotalLength(parts[1..])
  }

  /** `s.split(sep)` for a one-character separator: always at least one part. */
  function SplitOn(sep: char, s: string): (parts: seq<string>)
    ensures |parts| >= 1
    decreases |s|
  {
    var i := IndexOf(sep, s, 0);
    if i == |s| then [s] else [s[..i]] + SplitOn(sep, s[i + 1..])
  }

  /** The first index at or after `from` that holds `c`, or `|s|` when there is none. */
  function IndexOf(c: char, s: string, from: nat): (i: nat)
    requires from <= |s|
    ensures from <= i <= |s|
    ensures i < |s| ==> s[i] == c
    ensures forall k :: from <= k < i ==> s[k] != c
    decreases |s| - from
  {
    if from == |s| || s[from] == c then from else IndexOf(c, s, from + 1)
  }

  /** Splitting on a separator undoes joining with it, as long as no part holds the separator. */
  lemma {:induction false} SplitOnJoin(sep: char, parts: seq<string>)
    requires parts != []
    requires forall k :: 0 <= k < |parts| ==> sep !in parts[k]
    ensures SplitOn(sep, Join([sep], parts)) == parts
    decreases |parts|
  {
    var s := Join([sep], parts);
    var p := parts[0];
    var i := IndexOf(sep, s, 0);
    if |parts| > 1 {
      var rest := Join([sep], parts[1..]);
      assert s == p + [sep] + rest;
      assert s[|p|] == sep;
      assert i == |p|;
      assert s[..i] == p;
      assert s[i + 1..] == rest;
      SplitOnJoin(sep, parts[1..]);
    }
  }
}
