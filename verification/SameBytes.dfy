/** Comparing two files in chunks, under reads that come back short or interrupted. */
module SameBytes {
  import opened Text

  datatype Result<T> = Ok(value: T) | Err

  /** What the next read does: deliver at most so many bytes, be interrupted, or fail for good. */
  datatype Event = Deliver(atMost: nat) | Interrupted | Broken

  datatype ReadResult = Got(n: nat) | Again | Error

  /** An open file with static contents, and a schedule for its reads; when the schedule is used up
      the reads are full. */
  class File {
    const content: seq<Byte>
    var pos: nat
    var schedule: seq<Event>

    ghost predicate Valid() reads this { pos <= |content| }

    constructor (content: seq<Byte>, schedule: seq<Event>)
      ensures this.content == content && this.schedule == schedule && pos == 0 && Valid()
    {
      this.content, this.schedule, pos := content, schedule, 0;
    }

    function Remaining(): nat
      requires Valid()
      reads this
    {
      |content| - pos
    }

    /** One `read` into `buf[at..]`: zero bytes only at the end of the file or of the buffer. */
    method Read(buf: array<Byte>, at: nat) returns (r: ReadResult)
      requires Valid() && at <= buf.Length
      modifies this, buf
      ensures Valid()
      ensures |schedule| <= |old(schedule)| && (forall e :: e in schedule ==> e in old(schedule))
      ensures r.Got? ==> r.n <= Min(buf.Length - at, old(Remaining()))
      ensures r.Got? ==> (r.n == 0 <==> Min(buf.Length - at, old(Remaining())) == 0)
      ensures r.Got? ==> pos == old(pos) + r.n
      ensures r.Got? ==> buf[..at] == old(buf[..at])
      ensures r.Got? ==> buf[at..at + r.n] == content[old(pos)..old(pos) + r.n]
      ensures r.Again? ==> pos == old(pos) && buf[..] == old(buf[..]) && |schedule| < |old(schedule)|
      ensures r.Error? ==> Broken in old(schedule)
    {
      var limit := buf.Length - at;
      if schedule != [] {
        var event := schedule[0];
        schedule := schedule[1..];
        match event {
          case Interrupted => return Again;
          case Broken => return Error;
          case Deliver(k) => limit := Min(limit, if k == 0 then 1 else k);
        }
      }
      var n := Min(limit, |content| - pos);
      CopyOut(buf, at, n);
      pos := pos + n;
      r := Got(n);
    }

    method CopyOut(buf: array<Byte>, at: nat, n: nat)
      requires pos + n <= |content| && at + n <= buf.Length
      modifies buf
      ensures buf[..at] == old(buf[..at]) && buf[at..at + n] == content[pos..pos + n]
    {
      var i := 0;
      while i < n
        invariant i <= n
        invariant forall k :: 0 <= k < at ==> buf[k] == old(buf[k])
        invariant forall k :: at <= k < at + i ==> buf[k] == content[pos + k - at]
      {
        buf[at + i] := content[pos + i];
        i := i + 1;
      }
      ghost var was, now := old(buf[..]), buf[..];
      SlicesAgree(now, 0, was, 0, at);
      SlicesAgree(now, at, content, pos, n);
    }
  }

  /** `fill`: for every schedule, the buffer or the rest of the file, whichever is shorter. */
  method Fill(file: File, buf: array<Byte>) returns (r: Result<nat>)
    requires file.Valid()
    modifies file, buf
    ensures file.Valid() && forall e :: e in file.schedule ==> e in old(file.schedule)
    ensures r.Ok? ==>
              && r.value == Min(buf.Length, old(file.Remaining()))
              && file.pos == old(file.pos) + r.value
              && buf[..r.value] == file.content[old(file.pos)..file.pos]
    ensures r.Err? ==> Broken in old(file.schedule)
  {
    var filled := 0;
    while filled < buf.Length
      invariant file.Valid() && filled <= buf.Length
      invariant forall e :: e in file.schedule ==> e in old(file.schedule)
      invariant file.pos == old(file.pos) + filled
      invariant buf[..filled] == file.content[old(file.pos)..file.pos]
      decreases buf.Length - filled, |file.schedule|
    {
      ghost var before := buf[..];
      var got := file.Read(buf, filled);
      match got {
        case Got(n) =>
          if n == 0 {
            break;
          }
          assert before[..filled] == buf[..filled];
          SliceJoin(buf[..], 0, filled, filled + n);
          SliceJoin(file.content, old(file.pos), old(file.pos) + filled, old(file.pos) + filled + n);
          filled := filled + n;
        case Again =>
          assert buf[..filled] == before[..filled];
        case Error => return Err;
      }
    }
    r := Ok(filled);
  }

  const CHUNK: nat := 64 * 1024

  /** `same_bytes`: for every pair of files and every pair of schedules, an answer is the truth about
      the whole contents, and only a read that fails for good withholds it. */
  method SameBytes(left: File, right: File) returns (r: Result<bool>)
    requires left.Valid() && right.Valid() && left != right && left.pos == right.pos == 0
    modifies left, right
    ensures r.Ok? ==> (r.value <==> left.content == right.content)
    ensures r.Err? ==> Broken in old(left.schedule) || Broken in old(right.schedule)
  {
    if |left.content| != |right.content| {
      return Ok(false);
    }
    var bufA, bufB := new Byte[CHUNK], new Byte[CHUNK];
    while true
      invariant left.Valid() && right.Valid() && left.pos == right.pos
      invariant left.content[..left.pos] == right.content[..right.pos]
      invariant forall e :: e in left.schedule ==> e in old(left.schedule)
      invariant forall e :: e in right.schedule ==> e in old(right.schedule)
      decreases |left.content| - left.pos
    {
      ghost var at := left.pos;
      var n := Fill(left, bufA);
      if n.Err? {
        return Err;
      }
      var m := Fill(right, bufB);
      if m.Err? {
        return Err;
      }
      if n.value != m.value {
        return Ok(false);
      }
      if n.value == 0 {
        assert left.content == left.content[..at] && right.content == right.content[..at];
        return Ok(true);
      }
      ghost var end := at + n.value;
      if bufA[..n.value] != bufB[..m.value] {
        assert left.content[at..end] != right.content[at..end];
        return Ok(false);
      }
      assert left.content[..end] == left.content[..at] + left.content[at..end];
      assert right.content[..end] == right.content[..at] + right.content[at..end];
    }
  }
}
