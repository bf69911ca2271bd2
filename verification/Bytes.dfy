/**
 Byte strings, the searches the engine performs on them, and byte sums.
 A position equal to the length of the text plays the role of "not found".
 */
module Bytes {

  type byte = c: char | c as int < 256

  type bytes = seq<byte>

  /** A field separator: SOH on the wire, '|' in logs. */
  type Separator = c: byte | c != '=' && c != '-' && !('0' <= c <= '9') witness '|'

  const SOH: Separator := 1 as char
  const PIPE: Separator := '|'

  datatype Option<+T> = None | Some(value: T)

  datatype Result<+T, +E> = Ok(value: T) | Err(error: E) {
    predicate IsFailure() { Err? }

    function PropagateFailure<U>(): Result<U, E>
      requires Err?
    {
      Err(error)
    }

    function Extract(): T
      requires Ok?
    {
      value
    }
  }

  lemma Assoc<T>(a: seq<T>, b: seq<T>, c: seq<T>)
    ensures (a + b) + c == a + (b + c)
  {
  }

  lemma SumParts<T>(a: seq<T>, b: seq<T>)
    ensures (a + b)[..|a|] == a && (a + b)[|a|..] == b
  {
  }

  lemma DropDrop<T>(s: seq<T>, i: nat, j: nat)
    requires i <= j <= |s|
    ensures s[i..][j - i..] == s[j..]
  {
  }

  lemma DropSlice<T>(s: seq<T>, i: nat, j: nat, k: nat)
    requires i <= j <= k <= |s|
    ensures s[i..][j - i..k - i] == s[j..k]
  {
  }

  /** The first position of c in s, or |s| when there is none. */
  function IndexOf(s: bytes, c: byte): (i: nat)
    ensures i <= |s|
    ensures i < |s| ==> s[i] == c
    ensures forall k :: 0 <= k < i ==> s[k] != c
  {
    if s == [] || s[0] == c then 0 else 1 + IndexOf(s[1..], c)
  }

  /** An occurrence of pat in s at position i. */
  predicate OccursAt(s: bytes, pat: bytes, i: nat) {
    i + |pat| <= |s| && s[i..i + |pat|] == pat
  }

  lemma OccursAtTail(s: bytes, pat: bytes)
    requires s != []
    ensures forall k: nat {:trigger OccursAt(s, pat, k)} ::
              0 < k ==> OccursAt(s, pat, k) == OccursAt(s[1..], pat, k - 1)
    ensures forall k: nat {:trigger OccursAt(s[1..], pat, k)} :: OccursAt(s, pat, k + 1) == OccursAt(s[1..], pat, k)
  {
    forall k: nat | 0 < k
      ensures OccursAt(s, pat, k) == OccursAt(s[1..], pat, k - 1)
    {
      if k + |pat| <= |s| {
        var here, there := s[k..k + |pat|], s[1..][k - 1..k - 1 + |pat|];
        assert forall j :: 0 <= j < |pat| ==> here[j] == there[j];
        assert here == there;
      }
    }
  }

  /** The first position where pat occurs in s, or |s| when there is none. */
  function IndexOfText(s: bytes, pat: bytes): (i: nat)
    requires pat != []
    ensures i <= |s|
    ensures i < |s| ==> OccursAt(s, pat, i)
    ensures forall k: nat :: k < i ==> !OccursAt(s, pat, k)
  {
    if s == [] || OccursAt(s, pat, 0) then 0
    else
      var rest := IndexOfText(s[1..], pat);
      OccursAtTail(s, pat);
      1 + rest
  }

  lemma IndexOfIs(s: bytes, c: byte, i: nat)
    requires i <= |s|
    requires i < |s| ==> s[i] == c
    requires forall k :: 0 <= k < i ==> s[k] != c
    ensures IndexOf(s, c) == i
  {
  }

  lemma IndexOfTextIs(s: bytes, pat: bytes, i: nat)
    requires pat != []
    requires i <= |s|
    requires i < |s| ==> OccursAt(s, pat, i)
    requires forall k: nat :: k < i ==> !OccursAt(s, pat, k)
    ensures IndexOfText(s, pat) == i
  {
    var j := IndexOfText(s, pat);
    assert j < |s| ==> OccursAt(s, pat, j);
    assert i < |s| ==> OccursAt(s, pat, i);
  }

  /** The sum of the bytes of s, each read as an unsigned number. */
  function Sum(s: bytes): (n: nat) {
    if s == [] then 0 else Sum(s[..|s| - 1]) + s[|s| - 1] as int
  }

  lemma {:induction false} SumAppend(a: bytes, b: bytes)
    ensures Sum(a + b) == Sum(a) + Sum(b)
  {
    if b == [] {
      assert a + b == a;
    } else {
      assert (a + b)[..|a + b| - 1] == a + b[..|b| - 1];
      SumAppend(a, b[..|b| - 1]);
    }
  }

  /** What makes it the sum: nothing adds nothing, one byte its code, and parts add up. */
  lemma SumMeans(c: byte, a: bytes, b: bytes)
    ensures Sum([]) == 0 && Sum([c]) == c as int && Sum(a + b) == Sum(a) + Sum(b)
  {
    assert [c][..0] == [];
    SumAppend(a, b);
  }

  /** Replacing one byte moves the sum by the difference of the two bytes. */
  lemma SumUpdate(s: bytes, i: nat, c: byte)
    requires i < |s|
    ensures Sum(s[i := c]) == Sum(s) - s[i] as int + c as int
  {
    assert s == s[..i] + [s[i]] + s[i + 1..];
    assert s[i := c] == s[..i] + [c] + s[i + 1..];
    SumAppend(s[..i] + [s[i]], s[i + 1..]);
    SumAppend(s[..i] + [c], s[i + 1..]);
    SumAppend(s[..i], [s[i]]);
    SumAppend(s[..i], [c]);
  }

  lemma SumNext(s: bytes, i: nat)
    requires i < |s|
    ensures Sum(s[..i + 1]) == Sum(s[..i]) + s[i] as int
  {
    assert s[..i + 1][..i] == s[..i];
  }

  lemma WrapStep(sum: nat, b: nat)
    ensures (sum % 0x1_0000_0000 + b) % 0x1_0000_0000 == (sum + b) % 0x1_0000_0000
  {
  }

  lemma DropMultiple(k: nat, r: nat)
    ensures (256 * k + r) % 256 == r % 256
  {
    var q := r / 256;
    assert 256 * k + r == 256 * (k + q) + r % 256;
  }

  lemma WrapEnd(sum: nat)
    ensures sum % 0x1_0000_0000 % 256 == sum % 256
  {
    var q, r := sum / 0x1_0000_0000, sum % 0x1_0000_0000;
    DropMultiple(0x100_0000 * q, r);
  }

  /** The sum of the first n bytes modulo 256, accumulated in a 32-bit counter. */
  method ByteSum(s: bytes, n: nat) returns (sum: nat)
    requires n <= |s|
    ensures sum == Sum(s[..n]) % 256
  {
    sum := 0;
    assert s[..0] == [];
    for i := 0 to n
      invariant sum == Sum(s[..i]) % 0x1_0000_0000
    {
      SumNext(s, i);
      WrapStep(Sum(s[..i]), s[i] as int);
      sum := (sum + s[i] as int) % 0x1_0000_0000;
    }
    WrapEnd(Sum(s[..n]));
    sum := sum % 256;
  }
}
