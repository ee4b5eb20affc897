/** The `Read + Seek` byte source every reader wraps: an immutable file behind a moving cursor. */
module Sources {
  import opened Wrappers
  import opened Arith
  import opened Bytes

  class Source {
    const data: File
    var cursor: u64

    constructor (data: File)
      ensures this.data == data && cursor == 0
    {
      this.data := data;
      cursor := 0;
    }

    method SeekStart(off: u64)
      modifies this
      ensures cursor == off
    {
      cursor := off;
    }

    method SeekEnd() returns (len: u64)
      modifies this
      ensures cursor == len == |data|
    {
      cursor := |data|;
      len := |data|;
    }

    /** `seek(SeekFrom::End(-back))`: an error when it lands before byte 0. */
    method SeekBack(back: nat) returns (r: Result<u64>)
      modifies this
      ensures r == if |data| < back then Err(InvalidInput) else Ok(|data| - back)
      ensures r.Ok? ==> cursor == r.value
    {
      if |data| < back {
        return Err(InvalidInput);
      }
      cursor := |data| - back;
      return Ok(|data| - back);
    }

    /** One `read`: possibly short, but never empty while bytes remain. */
    method Read(buf: array<byte>, lo: nat, hi: nat) returns (n: nat)
      requires lo <= hi <= buf.Length
      modifies this, buf
      ensures n <= |Window(data, old(cursor), hi - lo)|
      ensures n == 0 <==> Window(data, old(cursor), hi - lo) == []
      ensures cursor == old(cursor) + n
      ensures buf[..] == Patch(old(buf[..]), lo, Window(data, old(cursor), hi - lo)[..n])
    {
      hide Patch;
      ghost var was := buf[..];
      WindowLength(data, cursor, hi - lo);
      if cursor >= |data| || lo == hi {
        PatchNothing(was, lo);
        return 0;
      }
      var avail := Min(|data| - cursor, hi - lo);
      n :| 1 <= n <= avail;
      forall k | 0 <= k < n {
        buf[lo + k] := data[cursor + k];
      }
      CopyPatch(was, buf[..], lo, data, cursor, n, hi - lo);
      cursor := cursor + n;
    }

    /** Repeat short reads until the range is full or the file ends. */
    method Fill(buf: array<byte>, lo: nat, hi: nat) returns (done: nat)
      requires lo <= hi <= buf.Length
      modifies this, buf
      ensures done == |Window(data, old(cursor), hi - lo)|
      ensures cursor == old(cursor) + done
      ensures buf[..] == Patch(old(buf[..]), lo, Window(data, old(cursor), hi - lo))
    {
      hide *;
      ghost var was := buf[..];
      ghost var start: nat := cursor;
      ghost var whole := Window(data, start, hi - lo);
      WindowLength(data, start, hi - lo);
      done := 0;
      PatchNothing(was, lo);
      assert whole[..0] == [];
      while lo + done < hi
        invariant done <= |whole| <= hi - lo
        invariant cursor == start + done
        invariant buf[..] == Patch(was, lo, whole[..done])
      {
        ghost var before := buf[..];
        WindowSplit(data, start, hi - lo, done);
        var n := Read(buf, lo + done, hi);
        FillStep(was, lo, data, start, hi - lo, done, n, before, buf[..]);
        if n == 0 {
          break;
        }
        done := done + n;
      }
      assert whole[..done] == whole;
    }

    /** `read_exact`: all of the range or an error. */
    method ReadExact(buf: array<byte>, lo: nat, hi: nat) returns (r: Result<()>)
      requires lo <= hi <= buf.Length
      modifies this, buf
      ensures r == if lo == hi || old(cursor) + (hi - lo) <= |data| then Ok(()) else Err(UnexpectedEof)
      ensures buf[..] == Patch(old(buf[..]), lo, Window(data, old(cursor), hi - lo))
    {
      var done := Fill(buf, lo, hi);
      return if done < hi - lo then Err(UnexpectedEof) else Ok(());
    }

    /** Seek to `off` and read exactly `n` bytes into a new buffer. */
    method ReadExactAt(off: u64, n: nat) returns (r: Result<seq<byte>>)
      modifies this
      ensures r == ExactBytes(data, off, n)
    {
      SeekStart(off);
      r := ReadExactHere(n);
    }

    /** Read exactly `n` bytes at the cursor into a new buffer. */
    method ReadExactHere(n: nat) returns (r: Result<seq<byte>>)
      modifies this
      ensures r == ExactBytes(data, old(cursor), n)
    {
      var buf := new byte[n];
      var e := ReadExact(buf, 0, n);
      if e.Err? {
        return Err(e.error);
      }
      assert buf[..] == Window(data, old(cursor), n);
      return Ok(buf[..]);
    }
  }
}
