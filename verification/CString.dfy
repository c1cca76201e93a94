/** The fixed-width string routines of lib/string.c that the directory relies on.
    A C string is the sequence of bytes readable from its pointer. */
module CString {
  import opened Words

  /** The first n bytes of s can be read without running past a terminator. */
  ghost predicate Readable(s: seq<byte>, n: nat) {
    |s| >= n || 0 in s
  }

  /** Characters before the terminator, at most n of them. */
  function Len(s: seq<byte>, n: nat): (l: nat)
    ensures l <= n && l <= |s|
    ensures forall k :: 0 <= k < l ==> s[k] != 0
    ensures l < n && l < |s| ==> s[l] == 0
  {
    if n == 0 || s == [] || s[0] == 0 then 0 else 1 + Len(s[1..], n - 1)
  }

  /** The n-byte directory form of s: its characters, then zeros. A string of n or
      more characters is cut and left without a terminator. */
  function NameForm(s: seq<byte>, n: nat): (name: seq<byte>)
    ensures |name| == n
  {
    s[..Len(s, n)] + seq(n - Len(s, n), _ => 0)
  }

  /** Once a zero, always zero: what every stored name looks like. */
  ghost predicate Padded(name: seq<byte>) {
    forall i, k :: 0 <= i < k < |name| && name[i] == 0 ==> name[k] == 0
  }

  /** Byte by byte: the string up to its terminator, and zeros from there on. */
  lemma NameFormBytes(s: seq<byte>, n: nat, k: nat)
    requires Readable(s, n) && k < n
    ensures (exists j :: 0 <= j <= k && j < |s| && s[j] == 0) ==> NameForm(s, n)[k] == 0
    ensures !(exists j :: 0 <= j <= k && j < |s| && s[j] == 0) ==> k < |s| && NameForm(s, n)[k] == s[k]
  {
    var l := Len(s, n);
    if k < l {
      assert NameForm(s, n)[k] == s[k];
    } else if l < |s| {
      assert s[l] == 0;
    }
  }

  lemma NameFormPadded(s: seq<byte>, n: nat)
    ensures Padded(NameForm(s, n))
  {
  }

  /** A stored name is its own directory form. */
  lemma NameFormOfPadded(name: seq<byte>)
    requires Padded(name)
    ensures NameForm(name, |name|) == name
  {
    var l := Len(name, |name|);
    assert forall k :: l <= k < |name| ==> name[k] == 0;
  }

  /** Two strings that agree up to and including position k, where both end or the
      width n is reached, have the same directory form. */
  lemma SameForm(a: seq<byte>, b: seq<byte>, n: nat, k: nat)
    requires k <= n && k <= |a| && k <= |b| && a[..k] == b[..k]
    requires forall i :: 0 <= i < k ==> a[i] != 0
    requires k < n ==> k < |a| && k < |b| && a[k] == 0 && b[k] == 0
    ensures NameForm(a, n) == NameForm(b, n)
  {
    LenIs(a, n, k);
    LenIs(b, n, k);
  }

  lemma LenIs(a: seq<byte>, n: nat, k: nat)
    requires k <= n && k <= |a| && (forall i :: 0 <= i < k ==> a[i] != 0)
    requires k < n ==> k < |a| && a[k] == 0
    ensures Len(a, n) == k
  {
    var l := Len(a, n);
    if l < k { assert false; }
  }

  /** Strings that differ at k, before any terminator, have different forms. */
  lemma DifferentForm(a: seq<byte>, b: seq<byte>, n: nat, k: nat)
    requires k < n && k < |a| && k < |b| && a[k] != b[k]
    requires forall i :: 0 <= i < k ==> a[i] == b[i] && a[i] != 0
    ensures NameForm(a, n) != NameForm(b, n)
  {
    var fa, fb := NameForm(a, n), NameForm(b, n);
    if a[k] == 0 { LenIs(a, n, k); } else { assert Len(a, n) > k; }
    if b[k] == 0 { LenIs(b, n, k); } else { assert Len(b, n) > k; }
    assert fa[k] == a[k] && fb[k] == b[k];
  }

  /** Zero exactly when the two strings have the same n-byte directory form. */
  method Strncmp(s1: seq<byte>, s2: seq<byte>, n: nat) returns (r: int)
    requires Readable(s1, n) && Readable(s2, n)
    ensures r == 0 || r == 1
    ensures r == 0 <==> NameForm(s1, n) == NameForm(s2, n)
  {
    var i := 0;
    while i < n
      invariant i <= n && i <= |s1| && i <= |s2| && s1[..i] == s2[..i]
      invariant forall k :: 0 <= k < i ==> s1[k] != 0
    {
      assert i < |s1| && i < |s2|;
      if s1[i] != s2[i] {
        DifferentForm(s1, s2, n, i);
        return 1;
      }
      if s1[i] == 0 {
        SameForm(s1, s2, n, i);
        return 0;
      }
      i := i + 1;
    }
    SameForm(s1, s2, n, n);
    return 0;
  }

  /** Writes the directory form of src over the first n bytes of dest. */
  method Strncpy(dest: array<byte>, src: seq<byte>, n: nat)
    requires Readable(src, n) && n <= dest.Length
    modifies dest
    ensures dest[..n] == NameForm(src, n)
    ensures dest[n..] == old(dest[n..])
  {
    var eos := false;
    var i := 0;
    ghost var l := Len(src, n);
    while i < n
      invariant i <= n
      invariant eos <==> l < i
      invariant forall k :: 0 <= k < i ==> dest[k] == if k < l then src[k] else 0
      invariant forall k :: n <= k < dest.Length ==> dest[k] == old(dest[k])
    {
      if eos {
        dest[i] := 0;
      } else {
        assert i <= l && i < |src|;
        dest[i] := src[i];
        if src[i] == 0 { eos := true; }
      }
      i := i + 1;
    }
  }
}
