/** Byte-level building blocks shared by the archive and font codecs:
    bytes and unsigned 32-bit words, the little-endian 32-bit encoding both
    formats use for every integer field, Python's clamping slice, and
    concatenation of byte strings. */
module Bytes {

  type byte = x: int | 0 <= x < 256
  type u32 = x: int | 0 <= x < 0x1_0000_0000

  const Pow31: int := 0x8000_0000
  const Pow32: int := 0x1_0000_0000

  datatype Option<T> = None | Some(value: T)
  datatype Result<T, E> = Ok(value: T) | Err(error: E)

  /** struct.pack('<I', x): four bytes, least significant first. */
  function EncodeLE32(x: u32): (r: seq<byte>)
    ensures |r| == 4
  {
    [x % 256, (x / 0x100) % 256, (x / 0x1_0000) % 256, x / 0x100_0000]
  }

  /** struct.unpack('<I', b) on exactly four bytes. */
  function DecodeLE32(b: seq<byte>): (r: u32)
    requires |b| == 4
  {
    b[0] as int + 0x100 * (b[1] as int) + 0x1_0000 * (b[2] as int) + 0x100_0000 * (b[3] as int)
  }

  /** struct.unpack('<i', b): the same four bytes read as two's complement. */
  function ToSigned32(u: u32): (r: int)
    ensures -Pow31 <= r < Pow31
    ensures r < 0 <==> u >= Pow31
    ensures r >= 0 ==> r == u
  {
    if u < Pow31 then u else u - Pow32
  }

  lemma DecodeEncodeLE32(x: u32)
    ensures DecodeLE32(EncodeLE32(x)) == x
  {
    var q1 := x / 0x100;
    var q2 := q1 / 0x100;
    var q3 := q2 / 0x100;
    assert x == x % 256 + 0x100 * q1;
    assert q1 == q1 % 256 + 0x100 * q2;
    assert q2 == q2 % 256 + 0x100 * q3;
    assert q2 == x / 0x1_0000;
    assert q3 == x / 0x100_0000;
  }

  lemma EncodeDecodeLE32(b: seq<byte>)
    requires |b| == 4
    ensures EncodeLE32(DecodeLE32(b)) == b
  {
    var x := DecodeLE32(b);
    var q1: int := b[1] as int + 0x100 * (b[2] as int) + 0x1_0000 * (b[3] as int);
    var q2: int := b[2] as int + 0x100 * (b[3] as int);
    assert x == b[0] as int + 0x100 * q1;
    assert x / 0x100 == q1 && x % 256 == b[0];
    assert q1 == b[1] as int + 0x100 * q2;
    assert q1 / 0x100 == q2 && q1 % 256 == b[1];
    assert q2 / 0x100 == b[3] && q2 % 256 == b[2];
    assert x / 0x1_0000 == q2;
    assert x / 0x100_0000 == b[3];
  }

  function Min(a: int, b: int): int { if a <= b then a else b }

  /** Python's s[lo:hi] for non-negative bounds: both bounds are clamped to
      the length and an inverted range is empty. A read of n bytes at file
      position p is Slice(s, p, p + n). */
  function Slice<T>(s: seq<T>, lo: nat, hi: nat): (r: seq<T>)
    ensures lo <= hi <= |s| ==> r == s[lo..hi]
    ensures lo <= |s| <= hi ==> r == s[lo..]
    ensures hi <= lo || |s| <= lo ==> r == []
  {
    var l := Min(lo, |s|);
    var h := Min(hi, |s|);
    if l <= h then s[l..h] else []
  }

  /** n copies of v. */
  function Repeat<T>(v: T, n: nat): (r: seq<T>)
    ensures |r| == n
    ensures forall i :: 0 <= i < n ==> r[i] == v
  {
    if n == 0 then [] else Repeat(v, n - 1) + [v]
  }

  /** The byte strings of ss written one after another. */
  function Concat<T>(ss: seq<seq<T>>): seq<T>
  {
    if ss == [] then [] else Concat(ss[..|ss| - 1]) + ss[|ss| - 1]
  }

  lemma ConcatAppend<T>(ss: seq<seq<T>>, t: seq<T>)
    ensures Concat(ss + [t]) == Concat(ss) + t
  {
    assert (ss + [t])[..|ss|] == ss;
  }

  lemma {:induction false} ConcatJoin<T>(a: seq<seq<T>>, b: seq<seq<T>>)
    ensures Concat(a + b) == Concat(a) + Concat(b)
    decreases |b|
  {
    if b == [] {
      assert a + b == a;
    } else {
      var b' := b[..|b| - 1];
      assert a + b == (a + b') + [b[|b| - 1]];
      assert b == b' + [b[|b| - 1]];
      ConcatAppend(a + b', b[|b| - 1]);
      ConcatAppend(b', b[|b| - 1]);
      ConcatJoin(a, b');
    }
  }

  /** Element i of ss sits in Concat(ss) right after the elements before it. */
  lemma ConcatAt<T>(ss: seq<seq<T>>, i: nat)
    requires i < |ss|
    ensures Concat(ss) == Concat(ss[..i]) + ss[i] + Concat(ss[i + 1..])
    ensures Concat(ss)[|Concat(ss[..i])|..|Concat(ss[..i])| + |ss[i]|] == ss[i]
  {
    assert ss == ss[..i] + [ss[i]] + ss[i + 1..];
    ConcatJoin(ss[..i] + [ss[i]], ss[i + 1..]);
    ConcatAppend(ss[..i], ss[i]);
  }

  /** When every element has length k, Concat has length k * |ss| and
      element i occupies [k * i, k * i + k). */
  lemma {:induction false} ConcatUniform<T>(ss: seq<seq<T>>, k: nat)
    requires forall j :: 0 <= j < |ss| ==> |ss[j]| == k
    ensures |Concat(ss)| == k * |ss|
    ensures forall i :: 0 <= i < |ss| ==> |Concat(ss[..i])| == k * i
    decreases |ss|
  {
    if ss != [] {
      var m := |ss| - 1;
      ConcatUniform(ss[..m], k);
      assert k * |ss| == k * m + k;
      forall i | 0 <= i < |ss|
        ensures |Concat(ss[..i])| == k * i
      {
        if i < m {
          assert ss[..i] == ss[..m][..i];
        } else {
          assert ss[..i] == ss[..m];
        }
      }
    }
  }

  lemma ConcatUniformAt<T>(ss: seq<seq<T>>, k: nat, i: nat)
    requires forall j :: 0 <= j < |ss| ==> |ss[j]| == k
    requires i < |ss|
    ensures |Concat(ss)| == k * |ss|
    ensures k * i + k <= |Concat(ss)|
    ensures Concat(ss)[k * i..k * i + k] == ss[i]
  {
    ConcatUniform(ss, k);
    ConcatAt(ss, i);
    assert k * i + k <= k * |ss| by {
      assert i + 1 <= |ss|;
      MulMonotone(k, i + 1, |ss|);
    }
  }

  lemma MulMonotone(k: nat, a: nat, b: nat)
    requires a <= b
    ensures k * a <= k * b
  {
  }

  /** Adjacent slices join. */
  lemma SliceJoin<T>(s: seq<T>, a: nat, b: nat, c: nat)
    requires a <= b <= c <= |s|
    ensures s[a..b] + s[b..c] == s[a..c]
  {
  }

  lemma SliceAppendLeft<T>(a: seq<T>, b: seq<T>, lo: nat, hi: nat)
    requires lo <= hi <= |a|
    ensures (a + b)[lo..hi] == a[lo..hi]
  {
  }

  lemma SliceAppendRight<T>(a: seq<T>, b: seq<T>, lo: nat, hi: nat)
    requires lo <= hi <= |b|
    ensures (a + b)[|a| + lo..|a| + hi] == b[lo..hi]
  {
  }

  /** A slice of the second part of a four-part sequence. */
  lemma SliceOfSecond<T>(e: seq<T>, r: seq<T>, t: seq<T>, b: seq<T>, lo: nat, hi: nat)
    requires lo <= hi <= |r|
    ensures |e| + hi <= |e + r + t + b|
    ensures (e + r + t + b)[|e| + lo..|e| + hi] == r[lo..hi]
  {
    SliceAppendLeft(e + r + t, b, |e| + lo, |e| + hi);
    SliceAppendLeft(e + r, t, |e| + lo, |e| + hi);
    SliceAppendRight(e, r, lo, hi);
  }

  /** A slice of the third part of a four-part sequence. */
  lemma SliceOfThird<T>(e: seq<T>, r: seq<T>, t: seq<T>, b: seq<T>, lo: nat, hi: nat)
    requires lo <= hi <= |t|
    ensures |e| + |r| + hi <= |e + r + t + b|
    ensures (e + r + t + b)[|e| + |r| + lo..|e| + |r| + hi] == t[lo..hi]
  {
    SliceAppendLeft(e + r + t, b, |e| + |r| + lo, |e| + |r| + hi);
    SliceAppendRight(e + r, t, lo, hi);
  }
}
