/** The offset buffer that packets are built and transformed in: a byte store of which the stretch
from `start` to `end` is the packet, with room before and after it. */
module Transmission {
  import opened Base
  import opened Packets

  datatype BufferError = NoHeadRoom

  class TransmissionBytes {
    var buf: Bytes
    var start: nat
    var end: nat

    ghost predicate Valid()
      reads this
    {
      start <= end <= |buf|
    }

    function View(): Bytes
      requires Valid()
      reads this
    {
      buf[start..end]
    }

    constructor ZeroedSize(size: nat, reserve: nat)
      ensures Valid() && View() == seq(size, _ => 0) && start == 0
    {
      buf, start, end := seq(size + reserve, _ => 0), 0, size;
    }

    /** Room for a header, then the data read from the device. */
    constructor AfterHeadRoom(room: nat, data: Bytes)
      ensures Valid() && View() == data && start == room && buf[..room] == seq(room, _ => 0)
    {
      buf, start, end := seq(room, _ => 0) + data, room, room + |data|;
    }

    method RetreatHead(n: nat) returns (r: Result<(), BufferError>)
      requires Valid()
      modifies this`start
      ensures Valid() && (r.Ok? <==> n <= old(start))
      ensures r.Ok? ==> View() == buf[old(start) - n..old(start)] + old(View())
      ensures r.Err? ==> View() == old(View())
    {
      if n > start { return Err(NoHeadRoom); }
      start := start - n;
      return Ok(());
    }

    /** New length: what the store holds stays, stale bytes behind the packet included; only what lies
        beyond the store is filled with `value`. */
    method Resize(n: nat, value: bv8)
      requires Valid()
      modifies this`buf, this`end
      ensures Valid() && |View()| == n
      ensures forall i :: 0 <= i < n ==>
        View()[i] == if start + i < |old(buf)| then old(buf)[start + i] else value
      ensures forall i :: 0 <= i < n && i < |old(View())| ==> View()[i] == old(View())[i]
    {
      ghost var before := buf;
      var newEnd := start + n;
      if newEnd <= |buf| {
        buf := buf[..newEnd];
      } else {
        buf := buf + seq(newEnd - |buf|, _ => value);
      }
      assert forall j :: 0 <= j < newEnd ==> buf[j] == if j < |before| then before[j] else value;
      end := newEnd;
      assert forall i :: 0 <= i < n ==> View()[i] == buf[start + i];
    }

    method ExtendEnd(n: nat)
      requires Valid()
      modifies this`buf, this`end
      ensures Valid() && |View()| == |old(View())| + n && View()[..|old(View())|] == old(View())
    {
      ghost var before := View();
      if end + n > |buf| {
        buf := buf + seq(end + n - |buf|, _ => 0);
      }
      end := end + n;
      assert forall i :: 0 <= i < |before| ==> View()[i] == before[i];
      assert View()[..|before|] == before;
    }

    method ShrinkEnd(n: nat)
      requires Valid()
      modifies this`end
      ensures Valid() && View() == if n >= |old(View())| then [] else old(View())[..|old(View())| - n]
    {
      if n >= end - start {
        end := start;
      } else {
        end := end - n;
      }
    }

    /** Overwrites a stretch of the packet. */
    method CopyIn(at: nat, data: Bytes)
      requires Valid() && at + |data| <= |View()|
      modifies this`buf
      ensures Valid() && View() == old(View())[..at] + data + old(View())[at + |data|..]
    {
      buf := buf[..start + at] + data + buf[start + at + |data|..];
    }

    /** Overwrites the header with that of `b`. */
    method SetHead(b: Packet)
      requires Valid() && |View()| >= HEAD_LENGTH && Payload(b) == Payload(View())
      modifies this`buf
      ensures Valid() && View() == b
    {
      assert b == b[..HEAD_LENGTH] + Payload(b);
      CopyIn(0, b[..HEAD_LENGTH]);
    }

    function IntoBytes(): Bytes
      requires Valid()
      reads this
      ensures IntoBytes() == View()
    {
      buf[..end][start..]
    }
  }
}
