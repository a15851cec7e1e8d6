// The bounded byte buffer of internal/rbuffer/ring_buffer.go.
//
// `Ring` is the value of the fields guarded by the mutex, with the cursor
// arithmetic of the source. `RingBuffer` is the object whose methods update those fields
// in place; each method is proved to have the effect that `Ring` describes. What a
// caller sees is `Contents`, a plain queue.
module RingBuffer {
  import opened Basics

  datatype Ring = Ring(buf: seq<Byte>, r: nat, w: nat, isFull: bool) {

    // A buffer of size zero is legal: both cursors then stay at 0.
    predicate Valid() {
      && r <= |buf| && w <= |buf|
      && (buf != [] ==> r < |buf| && w < |buf|)
      && (isFull ==> r == w && buf != [])
    }

    // The unread bytes, oldest first: `Count` slots from `r` on, wrapping at the end.
    function Contents(): (q: seq<Byte>)
      requires Valid()
      ensures |q| == Count()
    {
      seq(Count(), i requires 0 <= i < Count() => buf[Slot(r + i)])
    }

    function Count(): nat
      requires Valid()
    {
      if w > r then w - r else if w < r || isFull then |buf| - r + w else 0
    }

    function Slot(k: nat): (slot: nat)
      requires Valid() && k < 2 * |buf|
      ensures slot < |buf|
    {
      if k < |buf| then k else k - |buf|
    }

    predicate HasData() {
      w != r || isFull
    }

    function Available(): int {
      if isFull then 0
      else if w >= r then |buf| - (w - r)
      else r - w
    }

    function TakeCount(len: nat): int {
      if w > r then Min(len, w - r) else Min(len, |buf| - r + w)
    }

    function AfterTake(len: nat): Ring
      requires Valid() && HasData()
    {
      Ring(buf, (r + TakeCount(len)) % |buf|, w, false)
    }

    // The chunk fills the slots from `w` on, wrapping at the end.
    function AfterPut(chunk: seq<Byte>): Ring
      requires Valid() && 0 < |chunk| <= Available()
    {
      var filled := seq(|buf|, i requires 0 <= i < |buf| =>
        if Ahead(i) < |chunk| then chunk[Ahead(i)] else buf[i]);
      var w' := Slot(w + |chunk|);
      Ring(filled, r, w', isFull || w' == r)
    }

    // How far slot `i` lies ahead of the write cursor.
    function Ahead(i: nat): (d: nat)
      requires Valid() && i < |buf|
      ensures d < |buf|
    {
      if i >= w then i - w else i - w + |buf|
    }

    function AfterReset(): Ring {
      Ring(buf, 0, 0, false)
    }
  }

  // The cursors and the full flag determine how much is stored and how much fits.
  lemma Occupancy(ring: Ring)
    requires ring.Valid()
    ensures ring.Available() == |ring.buf| - |ring.Contents()|
    ensures ring.HasData() <==> ring.Contents() != []
  {
  }

  // Copying out hands over the oldest bytes and leaves the rest, across the wrap.
  lemma TakeIsDequeue(ring: Ring, len: nat)
    requires ring.Valid() && ring.HasData() && len > 0
    ensures 0 < ring.TakeCount(len) == Min(len, |ring.Contents()|)
    ensures ring.AfterTake(len).Valid() && ring.AfterTake(len).buf == ring.buf
    ensures ring.AfterTake(len).Contents() == ring.Contents()[ring.TakeCount(len)..]
  {
    TakeCursor(ring, len);
    var n, after := ring.TakeCount(len), ring.AfterTake(len);
    forall i | 0 <= i < after.Count()
      ensures after.Contents()[i] == ring.Contents()[n + i]
    {
      assert after.Slot(after.r + i) == ring.Slot(ring.r + (n + i));
    }
  }

  lemma TakeCursor(ring: Ring, len: nat)
    requires ring.Valid() && ring.HasData() && len > 0
    ensures 0 < ring.TakeCount(len) == Min(len, ring.Count())
    ensures var after, k := ring.AfterTake(len), ring.r + ring.TakeCount(len);
            && after.Valid() && after.buf == ring.buf
            && after.r == ring.Slot(k)
            && after.Count() == ring.Count() - ring.TakeCount(len)
  {
    WrapIsModulo(ring.r + ring.TakeCount(len), |ring.buf|);
  }

  lemma WrapIsModulo(k: nat, size: nat)
    requires k < 2 * size
    ensures k % size == if k < size then k else k - size
  {
  }

  // Copying in appends, whether or not the chunk wraps, and never touches unread bytes.
  lemma PutIsEnqueue(ring: Ring, chunk: seq<Byte>)
    requires ring.Valid() && 0 < |chunk| <= ring.Available()
    ensures ring.AfterPut(chunk).Valid() && |ring.AfterPut(chunk).buf| == |ring.buf|
    ensures ring.AfterPut(chunk).Contents() == ring.Contents() + chunk
  {
    var after := ring.AfterPut(chunk);
    assert after.Valid() && after.Count() == ring.Count() + |chunk|;
    forall i | 0 <= i < after.Count()
      ensures after.Contents()[i] == (ring.Contents() + chunk)[i]
    {
      var slot := ring.Slot(ring.r + i);
      assert i < ring.Count() ==> ring.Ahead(slot) >= |chunk|;
      assert i >= ring.Count() ==> ring.Ahead(slot) == i - ring.Count();
    }
  }

  lemma AppendPiece(held: seq<Byte>, p: seq<Byte>, total: nat, k: nat)
    requires total + k <= |p|
    ensures held + p[..total] + p[total..total + k] == held + p[..total + k]
  {
  }

  // How a call leaves its critical section: done, or on the condition variable.
  datatype ReadOutcome = Got(n: nat) | EndOfFile | ReadMustWait
  datatype WriteOutcome = Written | ErrClosed | WriteMustWait

  class RingBuffer {
    const buf: array<Byte>
    const size: nat
    var r: nat
    var w: nat
    var isFull: bool
    var closed: bool

    ghost function View(): Ring
      reads this, buf
    {
      Ring(buf[..], r, w, isFull)
    }

    ghost predicate Valid()
      reads this, buf
    {
      size == buf.Length && View().Valid()
    }

    ghost function Contents(): seq<Byte>
      requires Valid()
      reads this, buf
    {
      View().Contents()
    }

    constructor (size: nat)
      ensures Valid() && fresh(buf)
      ensures this.size == size && Contents() == [] && !closed
    {
      this.buf := new Byte[size](_ => 0);
      this.size := size;
      r, w, isFull, closed := 0, 0, false, false;
    }

    // The flag changes outside the mutex; everything stored stays readable.
    method Close()
      requires Valid()
      modifies `closed
      ensures Valid() && closed && View() == old(View())
    {
      closed := true;
    }

    method Reset()
      requires Valid()
      modifies `r, `w, `isFull
      ensures Valid() && View() == old(View()).AfterReset() && Contents() == []
    {
      r, w, isFull := 0, 0, false;
    }

    // A queue bounded by `size`: the free space is what the queue leaves.
    method AvailableLocked() returns (n: nat)
      requires Valid()
      ensures n == View().Available() == size - |Contents()|
    {
      Occupancy(View());
      if isFull { return 0; }
      if w >= r { return size - (w - r); }
      return r - w;
    }

    method ReadLocked(p: array<Byte>) returns (n: nat)
      requires Valid() && View().HasData() && p.Length > 0 && p != buf
      modifies `r, `isFull, p
      ensures Valid() && View() == old(View()).AfterTake(p.Length)
      ensures n == Min(p.Length, |old(Contents())|) > 0
      ensures p[..n] == old(Contents())[..n] && p[n..] == old(p[n..])
      ensures Contents() == old(Contents())[n..]
    {
      TakeIsDequeue(View(), p.Length);
      TakeCursor(View(), p.Length);
      n := CopyOut(p);
      r := (r + n) % size;
      isFull := false;
    }

    // At most two copies out of the array, without moving the cursor.
    method CopyOut(p: array<Byte>) returns (n: nat)
      requires Valid() && View().HasData() && p != buf
      modifies p
      ensures n == View().TakeCount(p.Length) == Min(p.Length, View().Count())
      ensures forall i :: 0 <= i < n ==> p[i] == buf[View().Slot(r + i)]
      ensures forall i :: n <= i < p.Length ==> p[i] == old(p[i])
    {
      if w > r {
        n := w - r;
        if n > p.Length { n := p.Length; }
        Copy(p, 0, buf, r, n);
      } else {
        n := size - r + w;
        if n > p.Length { n := p.Length; }
        if r + n <= size {
          Copy(p, 0, buf, r, n);
        } else {
          var c1 := size - r;
          Copy(p, 0, buf, r, c1);
          Copy(p, c1, buf, 0, n - c1);
        }
      }
    }

    // One pass of Read under the mutex, up to where it returns or waits.
    method Read(p: array<Byte>) returns (res: ReadOutcome)
      requires Valid() && p != buf
      modifies `r, `isFull, p
      ensures Valid() && closed == old(closed)
      ensures match res {
                case Got(n) =>
                  && n == Min(p.Length, |old(Contents())|) && (n == 0 ==> p.Length == 0)
                  && p[..n] == old(Contents())[..n] && p[n..] == old(p[n..])
                  && Contents() == old(Contents())[n..]
                case EndOfFile => p.Length > 0 && closed && old(Contents()) == [] && View() == old(View())
                case ReadMustWait => p.Length > 0 && !closed && old(Contents()) == [] && View() == old(View())
              }
    {
      if p.Length == 0 { return Got(0); }
      Occupancy(View());
      if w != r || isFull {
        var n := ReadLocked(p);
        return Got(n);
      }
      if closed { return EndOfFile; }
      return ReadMustWait;
    }

    // Write under the mutex, up to where it returns or waits. A caller that must wait
    // resumes with the bytes from `total` on. The source loads the flag again in every
    // round; what happens when it flips in between is the subject of RingProtocol.
    method Write(p: array<Byte>) returns (total: nat, res: WriteOutcome)
      requires Valid() && p != buf
      modifies `w, `isFull, buf
      ensures Valid() && r == old(r)
      ensures total <= p.Length && Contents() == old(Contents()) + p[..total]
      ensures closed ==> total == 0
      ensures !closed ==> total == Min(p.Length, size - |old(Contents())|)
      ensures res == if closed then ErrClosed else if total == p.Length then Written else WriteMustWait
    {
      total := 0;
      if closed { return 0, ErrClosed; }
      if p.Length == 0 { return 0, Written; }
      ghost var held := Contents();
      while total < p.Length
        invariant Valid() && r == old(r) && total <= p.Length
        invariant Contents() == held + p[..total]
      {
        var avail := AvailableLocked();
        if avail == 0 { return total, WriteMustWait; }
        var k := p.Length - total;
        if k > avail { k := avail; }
        PutChunk(p, total, k);
        AppendPiece(held, p[..], total, k);
        total := total + k;
      }
      Occupancy(View());
      return total, Written;
    }

    // The body of the write loop: at most two copies, then the cursor and the full flag.
    method PutChunk(chunk: array<Byte>, from: nat, k: nat)
      requires Valid() && chunk != buf && from + k <= chunk.Length && 0 < k <= View().Available()
      modifies `w, `isFull, buf
      ensures Valid() && View() == old(View()).AfterPut(chunk[from..from + k])
      ensures Contents() == old(Contents()) + chunk[from..from + k]
    {
      PutIsEnqueue(View(), chunk[from..from + k]);
      CopyIn(chunk, from, k);
      if w + k <= size {
        w := w + k;
        if w == size { w := 0; }
      } else {
        w := k - (size - w);
      }
      if w == r { isFull := true; }
    }

    // At most two copies into the array, without moving the cursor.
    method CopyIn(chunk: array<Byte>, from: nat, k: nat)
      requires Valid() && chunk != buf && from + k <= chunk.Length && 0 < k <= View().Available()
      modifies buf
      ensures Valid() && buf[..] == old(View()).AfterPut(chunk[from..from + k]).buf
    {
      if w + k <= size {
        Copy(buf, w, chunk, from, k);
      } else {
        var c1 := size - w;
        Copy(buf, w, chunk, from, c1);
        Copy(buf, 0, chunk, from + c1, k - c1);
      }
    }

    static method Copy(dst: array<Byte>, to: nat, src: array<Byte>, from: nat, n: nat)
      requires dst != src && to + n <= dst.Length && from + n <= src.Length
      modifies dst
      ensures forall i :: 0 <= i < dst.Length ==>
                dst[i] == if to <= i < to + n then src[from + (i - to)] else old(dst[i])
    {
      for k := 0 to n
        invariant forall i :: 0 <= i < dst.Length ==>
                    dst[i] == if to <= i < to + k then src[from + (i - to)] else old(dst[i])
      {
        dst[to + k] := src[from + k];
      }
    }
  }
}
