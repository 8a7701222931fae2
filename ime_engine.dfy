/**
 * The runtime candidate lookup of the simulator (`ImeEngine.query`): an
 * index from query code to the (offset, length) of its candidates in a data
 * file, read as a byte pool and decoded as UTF-8.
 */
module ImeEngine {
  import opened Wrappers
  import opened Utf8

  /**
   * Why a lookup raised instead of returning: a negative seek (`OSError`), a
   * read length below -1 (`ValueError`), or bytes that are not UTF-8.
   */
  datatype QueryError = NegativeSeek | BadLength | NotUtf8

  /** The loaded index: query code to the `[offset, length]` pair stored for it. */
  type Index = map<string, (int, int)>

  function Min(a: int, b: int): int
  {
    if a <= b then a else b
  }

  /**
   * `seek(offset)` then `read(length)` on a file holding `pool`: at most
   * `length` bytes from `offset` on, fewer at the end of the file, the rest
   * of the file for `-1`, and an error for any length below that.
   */
  function ReadAt(pool: seq<byte>, offset: nat, length: int): (r: Result<seq<byte>, QueryError>)
    ensures r.Err? <==> length < -1
    ensures r.Err? ==> r.error == BadLength
    ensures r.Ok? && length >= 0 ==> |r.value| <= length
    ensures r.Ok? && offset >= |pool| ==> r.value == []
    ensures length >= 0 && offset + length <= |pool| ==> r == Ok(pool[offset..offset + length])
    ensures length == -1 && offset <= |pool| ==> r == Ok(pool[offset..])
  {
    if length < -1 then Err(BadLength)
    else
      var start := Min(offset, |pool|);
      var stop := if length == -1 then |pool| else Min(offset + length, |pool|);
      assert length == -1 && offset <= |pool| ==> pool[start..stop] == pool[offset..];
      Ok(pool[start..stop])
  }

  /** `ImeEngine.query(code)`. */
  function Query(idx: Index, pool: seq<byte>, code: string): (r: Result<string, QueryError>)
    ensures code !in idx ==> r == Ok("")
    ensures code in idx && idx[code].0 < 0 ==> r == Err(NegativeSeek)
    ensures code in idx && idx[code].0 >= 0 && idx[code].1 < -1 ==> r == Err(BadLength)
    ensures code in idx && idx[code].0 >= 0 && idx[code].1 >= -1 ==>
              (r.Ok? <==> Decode(ReadAt(pool, idx[code].0, idx[code].1).value).Some?)
    ensures code in idx && r.Ok? ==>
              idx[code].0 >= 0 && ReadAt(pool, idx[code].0, idx[code].1) == Ok(Encode(r.value))
    ensures r.Err? ==> code in idx
  {
    if code !in idx then Ok("")
    else
      var (offset, length) := idx[code];
      if offset < 0 then Err(NegativeSeek)
      else
        match ReadAt(pool, offset, length)
        case Err(e) => Err(e)
        case Ok(bytes) =>
          match Decode(bytes)
          case None => Err(NotUtf8)
          case Some(s) =>
            DecodeSound(bytes);
            Ok(s)
  }

  /** A code whose entry spans the encoding of `s` inside the pool is answered with exactly `s`. */
  lemma QueryStored(idx: Index, pool: seq<byte>, code: string, s: string)
    requires code in idx && 0 <= idx[code].0 && 0 <= idx[code].1
    requires idx[code].0 + idx[code].1 <= |pool|
    requires pool[idx[code].0..idx[code].0 + idx[code].1] == Encode(s)
    ensures Query(idx, pool, code) == Ok(s)
  {
    DecodeEncode(s);
  }

  /** Of the negative lengths, only -1 reads to the end of the file: a stored -2 raises. */
  lemma OnlyMinusOneReadsRest()
    ensures Query(map["a" := (0, -1)], [0x41, 0x42], "a") == Ok("AB")
    ensures Query(map["a" := (0, -2)], [0x41, 0x42], "a") == Err(BadLength)
  {
    var ab: seq<byte> := [0x41, 0x42];
    assert Encode("AB") == ab by {
      EncodeAppend("A", "B");
    }
    DecodeEncode("AB");
  }
}
