/** Bytes, fixed-width integers and small sequence helpers shared by every model. */
module Bytes {

  type Byte = b: int | 0 <= b < 256

  type Bytes = seq<Byte>

  datatype Option<+T> = None | Some(value: T)

  /** The bytes of an ASCII literal. */
  function Ascii(s: string): (r: Bytes)
    ensures |r| == |s|
    ensures forall i :: 0 <= i < |s| ==> r[i] == s[i] as int % 256
  {
    seq(|s|, i requires 0 <= i < |s| => s[i] as int % 256)
  }

  lemma AsciiAppend(a: string, b: string)
    ensures Ascii(a + b) == Ascii(a) + Ascii(b)
  {
  }

  /** A number in decimal digits. */
  function Decimal(n: nat): Bytes {
    if n < 10 then [48 + n] else Decimal(n / 10) + [48 + n % 10]
  }

  function Zeros(n: nat): (r: Bytes)
    ensures |r| == n
    ensures forall i :: 0 <= i < n ==> r[i] == 0
  {
    seq(n, _ => 0)
  }

  function Min(a: nat, b: nat): nat {
    if a < b then a else b
  }

  /** The first n elements, or all of them when there are fewer. */
  function Take<T>(s: seq<T>, n: nat): seq<T> {
    s[..Min(|s|, n)]
  }

  /** Concatenation of a list of sequences. */
  function Flatten<T>(parts: seq<seq<T>>): seq<T> {
    if parts == [] then [] else parts[0] + Flatten(parts[1..])
  }

  // Little-endian integers of k bytes.

  function Pow256(k: nat): (r: nat)
    ensures r > 0
  {
    if k == 0 then 1 else 256 * Pow256(k - 1)
  }

  function Le(n: nat, k: nat): (r: Bytes)
    ensures |r| == k
  {
    if k == 0 then [] else [n % 256] + Le(n / 256, k - 1)
  }

  function FromLe(s: Bytes): nat {
    if s == [] then 0 else s[0] + 256 * FromLe(s[1..])
  }

  /** Reading back k little-endian bytes gives the number, when it fits. */
  lemma {:induction false} LeRoundTrip(n: nat, k: nat)
    requires n < Pow256(k)
    ensures FromLe(Le(n, k)) == n
  {
    if k > 0 {
      LeRoundTrip(n / 256, k - 1);
      assert Le(n, k)[1..] == Le(n / 256, k - 1);
    }
  }

  /** Any bytes are the little-endian form of the number they stand for. */
  lemma {:induction false} LeOfFromLe(s: Bytes)
    ensures FromLe(s) < Pow256(|s|) && Le(FromLe(s), |s|) == s
  {
    if s != [] {
      LeOfFromLe(s[1..]);
      var first: int := s[0];
      var n := FromLe(s[1..]);
      assert (first + 256 * n) % 256 == first && (first + 256 * n) / 256 == n;
      assert s == [s[0]] + s[1..];
    }
  }

  /** Little-endian numbers of two, four and eight bytes, byte by byte. */
  lemma LittleEndian(s: Bytes)
    ensures |s| == 2 ==> FromLe(s) == s[0] as int + s[1] as int * 0x100
    ensures |s| == 4 ==>
              FromLe(s) == s[0] as int + s[1] as int * 0x100 + s[2] as int * 0x1_0000 + s[3] as int * 0x100_0000
    ensures |s| == 8 ==> FromLe(s) == FromLe(s[..4]) + FromLe(s[4..]) * 0x1_0000_0000
  {
    if |s| == 2 {
      FromLeFrom(s, 0);
      FromLeFrom(s, 1);
    } else if |s| == 4 {
      FromLeFour(s);
    } else if |s| == 8 {
      FromLeFour(s[..4]);
      FromLeFrom(s, 0);
      FromLeFrom(s, 1);
      FromLeFrom(s, 2);
      FromLeFrom(s, 3);
    }
  }

  lemma FromLeFrom(s: Bytes, i: nat)
    requires i < |s|
    ensures FromLe(s[i..]) == s[i] as int + 256 * FromLe(s[i + 1..])
    ensures s[0..] == s && (i + 1 == |s| ==> FromLe(s[i + 1..]) == 0)
  {
    assert s[i..][1..] == s[i + 1..];
  }

  lemma FromLeFour(s: Bytes)
    requires |s| == 4
    ensures FromLe(s) == s[0] as int + s[1] as int * 0x100 + s[2] as int * 0x1_0000 + s[3] as int * 0x100_0000
  {
    FromLeFrom(s, 0);
    FromLeFrom(s, 1);
    FromLeFrom(s, 2);
    FromLeFrom(s, 3);
  }

  lemma Pow256Values()
    ensures Pow256(2) == 0x1_0000
    ensures Pow256(4) == 0x1_0000_0000
    ensures Pow256(8) == 0x1_0000_0000_0000_0000
  {
    assert Pow256(2) == 256 * Pow256(1);
    assert Pow256(4) == 256 * Pow256(3) && Pow256(3) == 256 * Pow256(2);
    assert Pow256(6) == 256 * Pow256(5) && Pow256(5) == 256 * Pow256(4);
    assert Pow256(8) == 256 * Pow256(7) && Pow256(7) == 256 * Pow256(6);
  }

  // Parts standing in larger data.

  /** The bytes `part` stand in `data` at `pos`. */
  ghost predicate At(data: Bytes, pos: nat, part: Bytes) {
    pos + |part| <= |data| && data[pos..pos + |part|] == part
  }

  lemma AtSplit(data: Bytes, pos: nat, a: Bytes, b: Bytes)
    requires At(data, pos, a + b)
    ensures At(data, pos, a) && At(data, pos + |a|, b)
  {
    var whole := data[pos..pos + |a + b|];
    assert whole[..|a|] == a && whole[|a|..] == b;
    assert data[pos..pos + |a|] == whole[..|a|];
    assert data[pos + |a|..pos + |a| + |b|] == whole[|a|..];
  }

  lemma InThree(s: Bytes, i: nat, j: nat)
    requires i <= j <= |s|
    ensures s == s[..i] + s[i..j] + s[j..]
  {
  }

  lemma AtLength(data: Bytes, pos: nat, part: Bytes)
    requires At(data, pos, part)
    ensures pos + |part| <= |data|
  {
  }

  lemma AtInPrefix(data: Bytes, more: Bytes, pos: nat, part: Bytes)
    requires At(data, pos, part)
    ensures At(data + more, pos, part)
  {
    assert (data + more)[pos..pos + |part|] == data[pos..pos + |part|];
  }

  lemma AtInSuffix(before: Bytes, data: Bytes, pos: nat, part: Bytes)
    requires At(data, pos, part)
    ensures At(before + data, |before| + pos, part)
  {
    assert (before + data)[|before| + pos..|before| + pos + |part|] == data[pos..pos + |part|];
  }

  lemma AtTail(before: Bytes, part: Bytes)
    ensures At(before + part, |before|, part)
  {
  }

  lemma AtSlice(data: Bytes, pos: nat, part: Bytes)
    requires At(data, pos, part)
    ensures pos + |part| <= |data| && data[pos..pos + |part|] == part
  {
  }
}
