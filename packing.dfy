/**
 * Python's `struct.pack` with a little-endian (`<`) format: each field is a
 * fixed number of bytes, least significant byte first, signed fields in two's
 * complement, `x` a zero pad byte, and a value outside a field's range makes
 * `pack` raise `struct.error`.
 */
module Packing {
  import opened Wrappers
  import opened Utf8

  /** The field whose value did not fit its width. */
  datatype PackError = OutOfRange(field: string, value: int)

  function Pow256(n: nat): (p: nat)
    ensures p >= 1
  {
    if n == 0 then 1 else 256 * Pow256(n - 1)
  }

  /** The low `n` bytes of `v`, least significant first. */
  function LittleEndian(v: nat, n: nat): (r: seq<byte>)
    ensures |r| == n
  {
    if n == 0 then [] else [v % 256] + LittleEndian(v / 256, n - 1)
  }

  /** The unsigned value of little-endian bytes. */
  function Unsigned(b: seq<byte>): (v: nat)
    ensures v < Pow256(|b|)
  {
    if b == [] then 0 else b[0] + 256 * Unsigned(b[1..])
  }

  /** Reading back `n` little-endian bytes gives the value they were made from, when it fits. */
  lemma {:induction false} UnsignedLittleEndian(v: nat, n: nat)
    requires v < Pow256(n)
    ensures Unsigned(LittleEndian(v, n)) == v
  {
    if n > 0 {
      UnsignedLittleEndian(v / 256, n - 1);
      assert LittleEndian(v, n)[1..] == LittleEndian(v / 256, n - 1);
    }
  }

  /** An unsigned field of `n` bytes (`B` is 1, `H` 2, `I` 4). */
  function PackUnsigned(field: string, v: int, n: nat): (r: Result<seq<byte>, PackError>)
    ensures r.Ok? <==> 0 <= v < Pow256(n)
    ensures r.Ok? ==> |r.value| == n && Unsigned(r.value) == v
    ensures r.Err? ==> r.error == OutOfRange(field, v)
  {
    if 0 <= v < Pow256(n) then
      UnsignedLittleEndian(v, n);
      Ok(LittleEndian(v, n))
    else Err(OutOfRange(field, v))
  }

  /** A signed byte read back from two's complement. */
  function Signed8(b: byte): int
  {
    if b < 128 then b else b - 256
  }

  /** A signed one-byte field (`b`): -128 to 127 in two's complement. */
  function PackSigned8(field: string, v: int): (r: Result<seq<byte>, PackError>)
    ensures r.Ok? <==> -128 <= v < 128
    ensures r.Ok? ==> |r.value| == 1 && Signed8(r.value[0]) == v
    ensures r.Err? ==> r.error == OutOfRange(field, v)
  {
    if -128 <= v < 128 then Ok([if v < 0 then v + 256 else v])
    else Err(OutOfRange(field, v))
  }

  /** Appends one packed field to the bytes packed so far, or passes the first error on. */
  function Then(acc: Result<seq<byte>, PackError>, next: Result<seq<byte>, PackError>): (r: Result<seq<byte>, PackError>)
    ensures r.Ok? <==> acc.Ok? && next.Ok?
    ensures r.Ok? ==> r.value == acc.value + next.value
  {
    match acc
    case Err(e) => Err(e)
    case Ok(a) =>
      match next
      case Err(e) => Err(e)
      case Ok(b) => Ok(a + b)
  }

  /** Packs each element with `pack` and concatenates the bytes, stopping at the first error. */
  function PackEach<T>(rs: seq<T>, pack: T -> Result<seq<byte>, PackError>): Result<seq<byte>, PackError>
    decreases |rs|
  {
    if rs == [] then Ok([]) else Then(PackEach(rs[..|rs| - 1], pack), pack(rs[|rs| - 1]))
  }

  /** The list packs exactly when every element does. */
  lemma {:induction false} PackEachOk<T>(rs: seq<T>, pack: T -> Result<seq<byte>, PackError>)
    ensures PackEach(rs, pack).Ok? <==> forall k :: 0 <= k < |rs| ==> pack(rs[k]).Ok?
    decreases |rs|
  {
    if rs != [] {
      var p := rs[..|rs| - 1];
      PackEachOk(p, pack);
      assert forall k :: 0 <= k < |p| ==> p[k] == rs[k];
    }
  }

  /** Every element that packs takes `size` bytes. */
  predicate FixedWidth<T>(rs: seq<T>, pack: T -> Result<seq<byte>, PackError>, size: nat)
  {
    forall k :: 0 <= k < |rs| ==> pack(rs[k]).Ok? ==> |pack(rs[k]).value| == size
  }

  /** Slot `k` of `size` bytes ends within `n` slots when `k < n`. */
  lemma {:induction false} SlotWithin(size: nat, k: nat, n: nat)
    requires k < n
    ensures size * k + size <= size * n
    decreases n
  {
    if k < n - 1 {
      SlotWithin(size, k, n - 1);
    }
    assert size * n == size * (n - 1) + size;
  }

  lemma SliceOfAppend(a: seq<byte>, c: seq<byte>, start: nat, size: nat)
    requires start + size <= |a|
    ensures (a + c)[start..start + size] == a[start..start + size]
  {
  }

  /** With fixed-width elements, the packed list is `size` bytes per element. */
  lemma {:induction false} PackEachLength<T>(rs: seq<T>, pack: T -> Result<seq<byte>, PackError>, size: nat)
    requires FixedWidth(rs, pack, size) && PackEach(rs, pack).Ok?
    ensures |PackEach(rs, pack).value| == size * |rs|
    decreases |rs|
  {
    if rs != [] {
      var n := |rs| - 1;
      var p := rs[..n];
      assert FixedWidth(p, pack, size) by {
        assert forall k :: 0 <= k < |p| ==> p[k] == rs[k];
      }
      PackEachLength(p, pack, size);
      assert size * (n + 1) == size * n + size;
    }
  }

  /** With fixed-width elements, element `k` is the `k`-th slice of `size` bytes of the packed list. */
  lemma {:induction false} PackEachSlice<T>(rs: seq<T>, pack: T -> Result<seq<byte>, PackError>, size: nat, k: nat)
    requires FixedWidth(rs, pack, size) && PackEach(rs, pack).Ok? && k < |rs|
    ensures |PackEach(rs, pack).value| == size * |rs|
    ensures size * k + size <= size * |rs| && pack(rs[k]).Ok?
    ensures PackEach(rs, pack).value[size * k..size * k + size] == pack(rs[k]).value
    decreases |rs|
  {
    var n := |rs| - 1;
    var p := rs[..n];
    assert FixedWidth(p, pack, size) by {
      assert forall j :: 0 <= j < |p| ==> p[j] == rs[j];
    }
    PackEachLength(p, pack, size);
    PackEachLength(rs, pack, size);
    PackEachOk(rs, pack);
    SlotWithin(size, k, |rs|);
    var a := PackEach(p, pack).value;
    var c := pack(rs[n]).value;
    assert PackEach(rs, pack).value == a + c;
    if k < n {
      PackEachSlice(p, pack, size, k);
      assert p[k] == rs[k];
      SliceOfAppend(a, c, size * k, size);
    }
  }

  /** Once a prefix fails to pack, the whole list fails with the same error. */
  lemma {:induction false} PackEachPrefixError<T>(rs: seq<T>, pack: T -> Result<seq<byte>, PackError>, i: nat)
    requires i <= |rs| && PackEach(rs[..i], pack).Err?
    ensures PackEach(rs, pack) == PackEach(rs[..i], pack)
    decreases |rs|
  {
    if i < |rs| {
      var p := rs[..|rs| - 1];
      assert p[..i] == rs[..i];
      PackEachPrefixError(p, pack, i);
    } else {
      assert rs[..i] == rs;
    }
  }

  /** The packing loop: `struct.pack` one element at a time onto a byte array. */
  method PackList<T>(rs: seq<T>, pack: T -> Result<seq<byte>, PackError>) returns (r: Result<seq<byte>, PackError>)
    ensures r == PackEach(rs, pack)
  {
    var packed: seq<byte> := [];
    for i := 0 to |rs|
      invariant PackEach(rs[..i], pack) == Ok(packed)
    {
      assert rs[..i + 1][..i] == rs[..i];
      var p := pack(rs[i]);
      if p.Err? {
        PackEachPrefixError(rs, pack, i + 1);
        return Err(p.error);
      }
      packed := packed + p.value;
    }
    assert rs[..|rs|] == rs;
    return Ok(packed);
  }
}
