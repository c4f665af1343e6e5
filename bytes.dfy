/** Byte strings and the Python operations on them that the patching engine relies on:
    clamped slicing, `in` (substring search) and the effect of `os.write` on a file's contents. */
module Bytes {

  type Byte = bv8

  function Min(a: int, b: int): int { if a <= b then a else b }

  function Max(a: int, b: int): int { if a <= b then b else a }

  /** Python's `s[i:j]` for non-negative bounds: both bounds are clamped to the length,
      and the slice is empty when the upper bound does not exceed the lower one. */
  function Slice<T>(s: seq<T>, i: nat, j: nat): (r: seq<T>)
    ensures |r| == Max(0, Min(j, |s|) - Min(i, |s|))
    ensures forall k :: 0 <= k < |r| ==> r[k] == s[i + k]
  {
    if Min(j, |s|) <= Min(i, |s|) then [] else s[i..Min(j, |s|)]
  }

  /** Python's `s[:n]`. */
  function Take<T>(s: seq<T>, n: nat): seq<T> { Slice(s, 0, n) }

  /** Python's `s[i:]`. */
  function Drop<T>(s: seq<T>, i: nat): seq<T> { Slice(s, i, |s|) }

  function Zeros(n: nat): (r: seq<Byte>)
    ensures |r| == n && forall k :: 0 <= k < n ==> r[k] == 0
  {
    seq(n, _ => 0)
  }

  /** The contents of a regular file after writing `b` at offset `pos`: the bytes at
      [pos, pos + |b|) are replaced, the file grows when the write runs past its end, and a
      gap between the old end and `pos` reads back as zeros. Writing nothing changes nothing. */
  function Overwrite(data: seq<Byte>, pos: nat, b: seq<Byte>): (r: seq<Byte>)
    ensures |r| == if |b| == 0 then |data| else Max(|data|, pos + |b|)
    ensures forall i :: 0 <= i < |r| ==>
              r[i] == if pos <= i < pos + |b| then b[i - pos] else if i < |data| then data[i] else 0
  {
    if |b| == 0 then data
    else if pos <= |data| then data[..pos] + b + Drop(data, pos + |b|)
    else data + Zeros(pos - |data|) + b
  }

  /** A write that starts inside the file, as three slices: what precedes it is kept, the
      written bytes follow, and what lies past them is kept. */
  lemma OverwriteLayout(data: seq<Byte>, pos: nat, b: seq<Byte>)
    requires pos <= |data|
    ensures var r := Overwrite(data, pos, b);
            && |r| == Max(|data|, pos + |b|)
            && r[..pos] == data[..pos]
            && r[pos..pos + |b|] == b
            && r[pos + |b|..] == Drop(data, pos + |b|)
  {
    var r := Overwrite(data, pos, b);
    assert r[..pos] == data[..pos];
    assert r[pos..pos + |b|] == b;
    assert r[pos + |b|..] == Drop(data, pos + |b|);
  }

  /** `needle` stands in `hay` at offset `i`. */
  ghost predicate OccursAt(needle: seq<Byte>, hay: seq<Byte>, i: nat)
  {
    i + |needle| <= |hay| && hay[i..i + |needle|] == needle
  }

  /** Reference meaning of Python's `needle in hay` on bytes objects. */
  ghost predicate Contains(hay: seq<Byte>, needle: seq<Byte>)
  {
    exists i: nat :: OccursAt(needle, hay, i)
  }

  /** Substring search as a scan from the front: `needle in hay`. */
  function Occurs(needle: seq<Byte>, hay: seq<Byte>): bool
    decreases |hay|
  {
    if needle <= hay then true
    else if |hay| == 0 then false
    else Occurs(needle, hay[1..])
  }

  /** The scan finds `needle` exactly when it stands somewhere in `hay`. */
  lemma {:induction false} OccursIff(needle: seq<Byte>, hay: seq<Byte>)
    ensures Occurs(needle, hay) <==> Contains(hay, needle)
    decreases |hay|
  {
    if needle <= hay {
      assert OccursAt(needle, hay, 0);
    } else if |hay| == 0 {
      // Only the empty needle fits in an empty hay, and it is a prefix of it.
    } else {
      OccursIff(needle, hay[1..]);
      if Occurs(needle, hay[1..]) {
        var i: nat :| OccursAt(needle, hay[1..], i);
        assert hay[1..][i..i + |needle|] == hay[i + 1..i + 1 + |needle|];
        assert OccursAt(needle, hay, i + 1);
      } else {
        forall i: nat ensures !OccursAt(needle, hay, i) {
          if i == 0 {
            if |needle| <= |hay| {
              assert hay[..|needle|] != needle;
            }
          } else if i + |needle| <= |hay| {
            assert hay[1..][i - 1..i - 1 + |needle|] == hay[i..i + |needle|];
            assert !OccursAt(needle, hay[1..], i - 1);
          }
        }
      }
    }
  }
}
