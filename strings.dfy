/** Byte-string helpers shared by the header store and the header transforms. */
module Optional {
  datatype Option<T> = None | Some(value: T)
}

module Strings {

  /** ASCII lower-casing of one byte; every other byte is left as it is. */
  function Lower(c: char): char
  {
    if 'A' <= c <= 'Z' then (c as int + 32) as char else c
  }

  predicate IsLowerChar(c: char)
  {
    !('A' <= c <= 'Z')
  }

  /** ASCII lower-casing of a whole string, byte by byte. */
  function LowerStr(s: string): (r: string)
    ensures |r| == |s|
    ensures forall i :: 0 <= i < |s| ==> r[i] == Lower(s[i]) && IsLowerChar(r[i])
  {
    seq(|s|, i requires 0 <= i < |s| => Lower(s[i]))
  }

  lemma LowerStrAppend(a: string, b: string)
    ensures LowerStr(a + b) == LowerStr(a) + LowerStr(b)
  {
    assert forall i :: 0 <= i < |a + b| ==> LowerStr(a + b)[i] == (LowerStr(a) + LowerStr(b))[i];
  }

  /** The position of the first `c` in `s`, or `|s|` when there is none (std::find). */
  function IndexOf(s: string, c: char): (k: nat)
    ensures k <= |s|
    ensures k < |s| ==> s[k] == c
    ensures forall j :: 0 <= j < k ==> s[j] != c
  {
    if s == [] then 0
    else if s[0] == c then 0
    else 1 + IndexOf(s[1..], c)
  }

  /** Conversely, the first `c` of `s` is where IndexOf finds it. */
  lemma IndexOfIs(s: string, c: char, k: nat)
    requires k <= |s| && (k < |s| ==> s[k] == c)
    requires forall j :: 0 <= j < k ==> s[j] != c
    ensures IndexOf(s, c) == k
  {
  }

  /** Searching a concatenation finds the first `c` of the left part, if it has one. */
  lemma IndexOfAppend(a: string, b: string, c: char)
    ensures IndexOf(a + b, c) == if IndexOf(a, c) < |a| then IndexOf(a, c) else |a| + IndexOf(b, c)
  {
    var k := IndexOf(a + b, c);
    var ka := IndexOf(a, c);
    if ka < |a| {
      assert (a + b)[ka] == c;
    } else {
      var kb := IndexOf(b, c);
      assert forall j :: 0 <= j < |a| + kb ==> (a + b)[j] != c by {
        forall j | 0 <= j < |a| + kb ensures (a + b)[j] != c {
          if j >= |a| { assert (a + b)[j] == b[j - |a|]; }
        }
      }
      if kb < |b| { assert (a + b)[|a| + kb] == c; }
    }
  }
}
