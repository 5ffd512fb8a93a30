/** The growable byte buffer of buf.c, which refines a plain byte sequence. */
module VmeBuffer {
  import opened Text

  const MIN_BUF_SIZE: nat := 64
  const LRG_BUF_SIZE: nat := 1024 * 1024
  const SML_BUF_SIZE: nat := 1024

  /** No block is shorter than 64 bytes. */
  function AtLeastMinimum(newSize: nat): nat {
    if newSize < 64 then 64 else newSize
  }

  /** A call of vmebuf_ensure_size that shrinks the block: from a megabyte or more to a kilobyte or less. */
  predicate Shrinks(limit: nat, newSize: nat) {
    newSize <= 1024 && limit >= 1_048_576
  }

  /** The length of the block after such a call. */
  function LimitFor(limit: nat, newSize: nat): nat {
    if limit < AtLeastMinimum(newSize) || Shrinks(limit, newSize) then AtLeastMinimum(newSize) else limit
  }

  class VmeBuf {
    var data: array?<Byte>
    var limit: nat
    var len: nat

    /** The block is as long as `limit` says, and not shorter than the minimum once there is one. */
    ghost predicate Sized()
      reads this
    {
      if limit == 0 then data == null else data != null && data.Length == limit >= MIN_BUF_SIZE
    }

    ghost predicate Valid()
      reads this
    {
      Sized() && len <= limit
    }

    ghost function Contents(): Bytes
      requires Valid()
      reads this, data
    {
      if data == null then [] else data[..len]
    }

    constructor ()
      ensures Valid() && limit == len == 0 && Contents() == []
    {
      data, limit, len := null, 0, 0;
    }

    /** realloc: a new block with as much of the old one as fits. */
    method Realloc(size: nat)
      requires Sized() && size >= MIN_BUF_SIZE
      modifies this`data, this`limit
      ensures Sized() && limit == size && fresh(data)
      ensures old(data) != null ==>
                var n := if size < old(limit) then size else old(limit); data[..n] == old(data[..])[..n]
    {
      var block := new Byte[size];
      if data != null {
        var n := if size < limit then size else limit;
        forall k | 0 <= k < n {
          block[k] := data[k];
        }
        assert block[..n] == data[..n];
      }
      data, limit := block, size;
    }

    method Truncate()
      requires Valid()
      modifies this`len
      ensures Valid() && Contents() == []
    {
      len := 0;
    }

    method Push(c: Byte)
      requires Valid()
      modifies this, data
      ensures Valid() && limit >= MIN_BUF_SIZE && Contents() == old(Contents()) + [c]
      ensures data == old(data) || fresh(data)
      ensures limit == LimitFor(old(limit), old(len) + 64)
    {
      ghost var was := Contents();
      var b := EnsureSize(this, len + MIN_BUF_SIZE);
      data[len] := c;
      len := len + 1;
      assert data[..len] == data[..len - 1] + [c];
    }

    method Concat(src: seq<Byte>)
      requires Valid()
      modifies this, data
      ensures Valid() && limit >= MIN_BUF_SIZE && Contents() == old(Contents()) + src
      ensures data == old(data) || fresh(data)
      ensures limit == LimitFor(old(limit), old(len) + |src| + |src| / 2)
    {
      var b := EnsureSize(this, len + |src| + |src| / 2);
      Fill(src);
    }

    /** The loop of vmebuf_concat, once there is room. */
    method Fill(src: seq<Byte>)
      requires Valid() && data != null && len + |src| <= limit
      modifies this`len, data
      ensures Valid() && Contents() == old(Contents()) + src
    {
      ghost var was := Contents();
      for i := 0 to |src|
        invariant len == old(len) + i <= limit
        invariant data[..len] == was + src[..i]
      {
        data[len] := src[i];
        len := len + 1;
        assert data[..len] == data[..len - 1] + [src[i]];
        assert src[..i + 1] == src[..i] + [src[i]];
      }
      assert src[..|src|] == src;
    }

    method ToStr() returns (str: array<Byte>)
      requires Valid()
      ensures fresh(str) && str[..] == Contents() + [NUL]
    {
      str := new Byte[len + 1];
      if data != null {
        forall k | 0 <= k < len {
          str[k] := data[k];
        }
      }
      str[len] := NUL;
      assert str[..len] == Contents();
      assert str[..] == str[..len] + [str[len]];
    }
  }

  /**
   vmebuf_ensure_size. A missing buffer is created. The live bytes survive, and the buffer stays valid, unless the
   call shrinks the block below them; then `limit` falls below `len`.
   */
  method EnsureSize(buf: VmeBuf?, newSize: nat) returns (r: VmeBuf)
    requires buf != null ==> buf.Valid()
    modifies if buf == null then {} else {buf}
    ensures buf != null ==> buf.len == old(buf.len)
    ensures if buf == null then fresh(r) && r.len == 0 else r == buf
    ensures r.Sized() && r.limit >= MIN_BUF_SIZE
    ensures buf != null ==> r.data == old(buf.data) || fresh(r.data)
    ensures r.Valid() <==> !(buf != null && Shrinks(old(buf.limit), newSize) && AtLeastMinimum(newSize) < buf.len)
    ensures r.Valid() ==> r.limit >= newSize && r.Contents() == (if buf == null then [] else old(buf.Contents()))
    ensures r.limit == LimitFor(if buf == null then 0 else old(buf.limit), newSize)
  {
    if buf == null {
      r := new VmeBuf();
    } else {
      r := buf;
    }
    var size := if newSize < MIN_BUF_SIZE then MIN_BUF_SIZE else newSize;
    if r.limit < size {
      r.Realloc(size);
    } else if size <= SML_BUF_SIZE && r.limit >= LRG_BUF_SIZE {
      r.Realloc(size);
    }
    if r.len <= r.limit && buf != null && old(buf.data) != null {
      assert r.data[..r.len] == old(buf.data[..buf.len]);
    }
  }

  /** A call that cuts: 100 live bytes in a block of a megabyte, and a request for nothing. */
  method CutLiveBytes(buf: VmeBuf)
    requires buf.Valid() && buf.limit == 1024 * 1024 && buf.len == 100
    modifies buf
    ensures buf.limit == 64 < buf.len && !buf.Valid()
  {
    var r := EnsureSize(buf, 0);
  }

  /** vmebuf_ensure_incr_size asks for more than the live bytes, so it never cuts them. */
  method EnsureIncrSize(buf: VmeBuf?, incr: nat) returns (r: VmeBuf)
    requires buf != null ==> buf.Valid()
    modifies if buf == null then {} else {buf}
    ensures buf != null ==> buf.len == old(buf.len)
    ensures if buf == null then fresh(r) && r.len == 0 else r == buf
    ensures r.Valid() && r.limit >= r.len + incr && r.limit >= MIN_BUF_SIZE
    ensures buf != null ==> r.data == old(buf.data) || fresh(r.data)
    ensures r.Contents() == (if buf == null then [] else old(buf.Contents()))
    ensures r.limit == LimitFor(if buf == null then 0 else old(buf.limit), r.len + incr)
  {
    r := EnsureSize(buf, (if buf == null then 0 else buf.len) + incr);
  }

  // ---------- runs ----------

  datatype Op = PushOp(c: Byte) | ConcatOp(s: Bytes) | EnsureOp(incr: nat) | TruncateOp

  function Effect(op: Op, contents: Bytes): Bytes {
    match op
    case PushOp(c) => contents + [c]
    case ConcatOp(s) => contents + s
    case EnsureOp(_) => contents
    case TruncateOp => []
  }

  /** What a run of operations leaves of the contents. */
  function After(ops: seq<Op>, contents: Bytes): Bytes {
    if ops == [] then contents else After(ops[1..], Effect(ops[0], contents))
  }

  /** What a run adds, when it does not truncate. */
  function Added(ops: seq<Op>): Bytes {
    if ops == [] then []
    else (match ops[0] case PushOp(c) => [c] case ConcatOp(s) => s case _ => []) + Added(ops[1..])
  }

  lemma {:induction false} WithoutTruncate(ops: seq<Op>, contents: Bytes)
    requires TruncateOp !in ops
    ensures After(ops, contents) == contents + Added(ops)
  {
    if ops != [] {
      WithoutTruncate(ops[1..], Effect(ops[0], contents));
    }
  }

  /** A run ends with everything added since its last truncation. */
  lemma {:induction false} SinceLastTruncate(before: seq<Op>, ops: seq<Op>, contents: Bytes)
    requires TruncateOp !in ops
    ensures After(before + [TruncateOp] + ops, contents) == Added(ops)
    decreases |before|
  {
    if before == [] {
      var run := [] + [TruncateOp] + ops;
      assert run[0] == TruncateOp && run[1..] == ops;
      WithoutTruncate(ops, []);
    } else {
      var run := before + [TruncateOp] + ops;
      assert run[0] == before[0] && run[1..] == before[1..] + [TruncateOp] + ops;
      SinceLastTruncate(before[1..], ops, Effect(before[0], contents));
    }
  }

  /** Any run of operations on a valid buffer, followed by vmebuf_tostr. */
  method Run(buf: VmeBuf, ops: seq<Op>) returns (str: array<Byte>)
    requires buf.Valid()
    modifies buf, buf.data
    ensures buf.Valid() && buf.Contents() == After(ops, old(buf.Contents()))
    ensures buf.limit == old(buf.limit) || buf.limit >= MIN_BUF_SIZE
    ensures str[..] == After(ops, old(buf.Contents())) + [NUL]
  {
    ghost var goal := After(ops, buf.Contents());
    for i := 0 to |ops|
      invariant buf.Valid() && After(ops[i..], buf.Contents()) == goal
      invariant buf.data == old(buf.data) || fresh(buf.data)
      invariant buf.limit == old(buf.limit) || buf.limit >= MIN_BUF_SIZE
    {
      assert ops[i..][1..] == ops[i + 1..];
      match ops[i] {
        case PushOp(c) => buf.Push(c);
        case ConcatOp(s) => buf.Concat(s);
        case EnsureOp(incr) => var r := EnsureIncrSize(buf, incr);
        case TruncateOp => buf.Truncate();
      }
    }
    str := buf.ToStr();
  }
}
