/** Bytes and the little-endian integers that every on-disk format of the engine uses. */
module Bytes {

  type byte = x: int | 0 <= x < 256

  function Pow256(width: nat): (r: nat)
    ensures r >= 1
  {
    if width == 0 then 1 else 256 * Pow256(width - 1)
  }

  lemma Pow256Values()
    ensures Pow256(1) == 0x100 && Pow256(2) == 0x1_0000 && Pow256(4) == 0x1_0000_0000
    ensures Pow256(8) == 0x1_0000_0000_0000_0000
  {
    assert Pow256(5) == 256 * Pow256(4);
    assert Pow256(6) == 256 * Pow256(5);
    assert Pow256(7) == 256 * Pow256(6);
  }

  /** The `width` low bytes of `value`, least significant first. */
  function LE(width: nat, value: nat): (s: seq<byte>)
    ensures |s| == width
  {
    if width == 0 then [] else [value % 256] + LE(width - 1, value / 256)
  }

  function FromLE(s: seq<byte>): nat
  {
    if s == [] then 0 else s[0] + 256 * FromLE(s[1..])
  }

  /** What fields of two, four and eight bytes are worth: the low byte comes first. */
  lemma FieldValues(s: seq<byte>)
    ensures |s| == 2 ==> var a: int, b: int := s[0], s[1]; FromLE(s) == a + 0x100 * b
    ensures |s| == 4 ==>
      var a: int, b: int, c: int, d: int := s[0], s[1], s[2], s[3];
      FromLE(s) == a + 0x100 * b + 0x1_0000 * c + 0x100_0000 * d
    ensures |s| == 8 ==> FromLE(s) == FromLE(s[..4]) + 0x1_0000_0000 * FromLE(s[4..])
  {
    if |s| == 2 || |s| == 4 {
      assert s == [s[0], s[1]] + s[2..] && s[1..] == [s[1]] + s[2..];
      assert FromLE(s[1..]) == s[1] + 256 * FromLE(s[2..]) by {
        assert s[1..][1..] == s[2..];
      }
      if |s| == 4 {
        assert s[2..] == [s[2], s[3]] && s[2..][1..] == [s[3]] && [s[3]][1..] == [];
      }
    } else if |s| == 8 {
      FromLEFour(s);
    }
  }

  lemma FromLEFour(s: seq<byte>)
    requires |s| >= 4
    ensures FromLE(s) == FromLE(s[..4]) + 0x1_0000_0000 * FromLE(s[4..])
  {
    Pow256Values();
    assert s[..4] + s[4..] == s;
    FromLEConcat(s[..4], s[4..]);
  }

  lemma MoveFactor(x: int, y: int, z: int)
    ensures x * (y * z) == (x * y) * z
  {
  }

  lemma {:induction false} FromLEConcat(a: seq<byte>, b: seq<byte>)
    ensures FromLE(a + b) == FromLE(a) + Pow256(|a|) * FromLE(b)
  {
    if a == [] {
      assert a + b == b;
    } else {
      FromLEConcat(a[1..], b);
      assert (a + b)[1..] == a[1..] + b;
      MoveFactor(256, Pow256(|a| - 1), FromLE(b));
    }
  }

  lemma {:induction false} FromLEBound(s: seq<byte>)
    ensures FromLE(s) < Pow256(|s|)
  {
    if s != [] {
      FromLEBound(s[1..]);
    }
  }

  /** Reading back what was written gives the value, as long as it fits the field. */
  lemma {:induction false} LERoundTrip(width: nat, value: nat)
    requires value < Pow256(width)
    ensures FromLE(LE(width, value)) == value
  {
    if width > 0 {
      LERoundTrip(width - 1, value / 256);
      assert LE(width, value)[1..] == LE(width - 1, value / 256);
    }
  }

  /** Every byte string is the encoding of the number it reads as. */
  lemma {:induction false} LECanonical(s: seq<byte>)
    ensures LE(|s|, FromLE(s)) == s
  {
    if s != [] {
      LECanonical(s[1..]);
      assert FromLE(s) % 256 == s[0] && FromLE(s) / 256 == FromLE(s[1..]);
      assert [s[0]] + s[1..] == s;
    }
  }

  /** Different byte strings of one length read as different numbers. */
  lemma FromLESeparates(x: seq<byte>, y: seq<byte>)
    requires |x| == |y| && x != y
    ensures FromLE(x) != FromLE(y)
  {
    hide LE, FromLE;
    LECanonical(x);
    LECanonical(y);
  }

  /** The unsigned field of `width` bytes at `offset`. */
  function Get(b: seq<byte>, offset: nat, width: nat): nat
    requires offset + width <= |b|
  {
    FromLE(b[offset..offset + width])
  }

  lemma GetBound(b: seq<byte>, offset: nat, width: nat)
    requires offset + width <= |b|
    ensures Get(b, offset, width) < Pow256(width)
  {
    FromLEBound(b[offset..offset + width]);
  }

  /** `b` with `data` copied over the bytes from `offset` on. */
  function Splice(b: seq<byte>, offset: nat, data: seq<byte>): (r: seq<byte>)
    requires offset + |data| <= |b|
    ensures |r| == |b|
    ensures forall k :: 0 <= k < |b| ==>
      r[k] == if offset <= k < offset + |data| then data[k - offset] else b[k]
  {
    b[..offset] + data + b[offset + |data|..]
  }

  /** std::copy into a byte buffer. */
  method CopyInto(a: array<byte>, offset: nat, data: seq<byte>)
    requires offset + |data| <= a.Length
    modifies a
    ensures a[..] == Splice(old(a[..]), offset, data)
  {
    for k := 0 to |data|
      invariant forall j :: 0 <= j < a.Length ==>
        a[j] == if offset <= j < offset + k then data[j - offset] else old(a[j])
    {
      a[offset + k] := data[k];
    }
  }

  /** Appends the `width` low bytes of `value` to a growing output. */
  method AppendLE(output: seq<byte>, width: nat, value: nat) returns (r: seq<byte>)
    ensures r == output + LE(width, value)
  {
    r := output;
    var rest := value;
    for k := 0 to width
      invariant r + LE(width - k, rest) == output + LE(width, value)
    {
      assert r + LE(width - k, rest) == (r + [rest % 256]) + LE(width - k - 1, rest / 256);
      r := r + [rest % 256];
      rest := rest / 256;
    }
  }

  lemma {:induction false} FromLEAppend(s: seq<byte>, x: byte)
    ensures FromLE(s + [x]) == FromLE(s) + x * Pow256(|s|)
  {
    if s == [] {
      assert [x][1..] == [];
    } else {
      FromLEAppend(s[1..], x);
      assert (s + [x])[1..] == s[1..] + [x];
    }
  }

  /** Reads an unsigned field, adding each byte shifted to its place. */
  method ReadLE(input: seq<byte>, offset: nat, width: nat) returns (value: nat)
    requires offset + width <= |input|
    ensures value == Get(input, offset, width)
  {
    value := 0;
    for k := 0 to width
      invariant value == FromLE(input[offset..offset + k])
    {
      FromLEAppend(input[offset..offset + k], input[offset + k]);
      assert input[offset..offset + k + 1] == input[offset..offset + k] + [input[offset + k]];
      value := value + input[offset + k] * Pow256(k);
    }
  }

  /** A run of zero bytes, as a freshly sized buffer holds. */
  function Zeros(n: nat): (s: seq<byte>)
    ensures |s| == n && forall k :: 0 <= k < n ==> s[k] == 0
  {
    seq(n, _ => 0)
  }
}
