/** Downloads that can be interrupted: a data file, and beside it a status file that says where to resume. */
module Download {
  import opened CText

  const UINT32_MODULUS := 0x1_0000_0000

  /** Everything a session takes from outside. `got` is what vmem_download() returned. */
  datatype Session = Session(
    length: nat,
    resume: bool,          // the user typed "yes"
    dataOpens: bool,       // fopen() of the data file succeeds
    got: int,
    written: nat,          // bytes fwrite() put into the data file
    statusOpens: bool,     // fopen() of the status file for writing succeeds
    statusRemoved: bool)   // remove() of the status file succeeds

  datatype Outcome = Completed | Unfinished | Failed

  /** vmem_download() returns a count of at most what was asked for, or something negative. */
  predicate Possible(s: Session, offset: nat) {
    && s.length < UINT32_MODULUS
    && (offset <= s.length ==> s.got <= s.length - offset)
    && s.got < 0x8000_0000
    && (s.got >= 0 ==> s.written <= s.got)
  }

  /** fscanf("%u") on a status file. */
  function ReadOffset(text: string): Option<nat> {
    match ScanInt(text)
    case NoNumber => None
    case Number(n, _) => Some(n % UINT32_MODULUS)
  }

  /** The files on disk. */
  datatype Disk = Disk(file: Option<seq<byte>>, status: Option<string>)

  function Slice(memory: nat -> byte, from: nat, count: nat): (r: seq<byte>)
    ensures |r| == count && forall i :: 0 <= i < count ==> r[i] == memory(from + i)
  {
    seq(count, i requires 0 <= i < count => memory(from + i))
  }

  /** The offset a session asks for. */
  function ResumeAt(d: Disk, s: Session): nat {
    if d.status.Some? && s.resume then ReadOffset(d.status.value).GetOr(0) else 0
  }

  predicate Unreadable(d: Disk) { d.status.Some? && ReadOffset(d.status.value).None? }

  /** What the data file holds once it is open: truncated, or kept for appending. */
  function Opened(d: Disk, s: Session): seq<byte> {
    if d.status.Some? && s.resume then d.file.GetOr([]) else []
  }

  predicate Transfers(d: Disk, s: Session) {
    !Unreadable(d) && s.dataOpens && ResumeAt(d, s) <= s.length && s.got >= 0
  }

  predicate Finishes(d: Disk, s: Session)
    requires Transfers(d, s)
  {
    s.got == ToInt32(s.length - ResumeAt(d, s))
  }

  function Result(d: Disk, s: Session): Outcome {
    if !Transfers(d, s) then Failed else if Finishes(d, s) then Completed else Unfinished
  }

  function After(d: Disk, s: Session, memory: nat -> byte): Disk {
    if Unreadable(d) || !s.dataOpens then d
    else if !Transfers(d, s) then d.(file := Some(Opened(d, s)))
    else
      var offset := ResumeAt(d, s);
      Disk(Some(Opened(d, s) + Slice(memory, offset, s.written)),
           if Finishes(d, s) then (if s.statusRemoved then None else d.status)
           else if s.statusOpens then Some(Print((s.got + offset) % UINT32_MODULUS)) else d.status)
  }

  class Downloader {
    const memory: nat -> byte    // the remote memory, from the requested address on
    var file: Option<seq<byte>>
    var status: Option<string>

    constructor (memory: nat -> byte)
      ensures file == None && status == None && this.memory == memory
    {
      this.memory, file, status := memory, None, None;
    }

    function Files(): Disk
      reads this
    {
      Disk(file, status)
    }

    method Run(s: Session) returns (outcome: Outcome)
      requires Possible(s, ResumeAt(Files(), s))
      modifies this
      ensures Files() == After(old(Files()), s, memory)
      ensures outcome == Result(old(Files()), s)
    {
      hide Print, ScanInt, ReadOffset, ToInt32;
      var offset := 0;
      if status.None? {
        if s.dataOpens { file := Some([]); }
      } else {
        var parsed := ReadOffset(status.value);
        if parsed.None? {
          return Failed;
        }
        offset := parsed.value;
        if !s.resume {
          if s.dataOpens { file := Some([]); }
          offset := 0;
        } else if s.dataOpens && file.None? {
          file := Some([]);  // opened for append
        }
      }
      if !s.dataOpens {
        return Failed;
      }
      if offset > s.length {
        return Failed;
      }
      var count := s.got;
      if count < 0 {
        return Failed;
      }
      var data := Slice(memory, offset, count);
      assert data[..s.written] == Slice(memory, offset, s.written);
      file := Some(file.value + data[..s.written]);
      if count != ToInt32(s.length - offset) {
        if s.statusOpens {
          status := Some(Print((count + offset) % UINT32_MODULUS));
        }
        outcome := Unfinished;
      } else {
        if s.statusRemoved {
          status := None;
        }
        outcome := Completed;
      }
    }
  }

  // ----- What sessions keep true

  /** The file is a prefix of the remote range, and a status file records exactly its length. */
  predicate Consistent(d: Disk, memory: nat -> byte) {
    && (d.file.Some? ==> d.file.value == Slice(memory, 0, |d.file.value|))
    && (d.status.Some? ==>
          d.file.Some? && |d.file.value| < UINT32_MODULUS && d.status.value == Print(|d.file.value|))
  }

  /** Without a status file any data file will do, since the next session starts afresh. */
  predicate Resumable(d: Disk, memory: nat -> byte) {
    d.status.Some? ==> Consistent(d, memory)
  }

  lemma RecordedOffset(n: nat)
    requires n < UINT32_MODULUS
    ensures ReadOffset(Print(n)) == Some(n)
  {
    hide ScanInt, Print;
    assert PrintInt(n) == Print(n);
    ScanPrinted(n, "");
    assert Print(n) + "" == Print(n);
  }

  lemma SliceAppend(memory: nat -> byte, a: nat, b: nat)
    ensures Slice(memory, 0, a) + Slice(memory, a, b) == Slice(memory, 0, a + b)
  {
  }

  /** Bytes already in the file when a session starts. */
  function Recorded(d: Disk): nat {
    if d.file.Some? then |d.file.value| else 0
  }

  /** What a caller can see going wrong: a failed transfer after the old file was truncated,
      a short write, or a status file that could be neither rewritten nor removed. */
  predicate Harmless(d: Disk, s: Session) {
    if !s.dataOpens then true
    else if !Transfers(d, s) then d.status.None? || s.resume || Recorded(d) == 0
    else if !Finishes(d, s) && s.statusOpens then s.written == s.got
    else d.status.None? || (Finishes(d, s) && s.statusRemoved) || |Opened(d, s)| + s.written == Recorded(d)
  }

  lemma PrintInjective(a: nat, b: nat)
    requires Print(a) == Print(b)
    ensures a == b
  {
    assert Value(Print(a)) == a && Value(Print(b)) == b;
  }

  /** A session keeps the files consistent exactly when it is harmless. */
  lemma ConsistentIffHarmless(d: Disk, s: Session, memory: nat -> byte)
    requires Consistent(d, memory) && Possible(s, ResumeAt(d, s))
    ensures Consistent(After(d, s, memory), memory) <==> Harmless(d, s)
  {
    StartsAtRecorded(d, s, memory);
    if s.dataOpens && Transfers(d, s) {
      SliceAppend(memory, ResumeAt(d, s), s.written);
      ConsistentAfterTransfer(d, s, memory);
    } else if s.dataOpens && d.status.Some? && !s.resume {
      StaleStatus(Recorded(d), 0);
    }
  }

  /** Nor does the next session need more: it finds the files resumable exactly when this one was harmless. */
  lemma ResumableIffHarmless(d: Disk, s: Session, memory: nat -> byte)
    requires Resumable(d, memory) && Possible(s, ResumeAt(d, s))
    ensures Resumable(After(d, s, memory), memory) <==> Harmless(d, s)
    ensures Harmless(d, s) && s.dataOpens ==> Consistent(After(d, s, memory), memory)
  {
    if d.status.Some? {
      ConsistentIffHarmless(d, s, memory);
      HarmedKeepsStatus(d, s, memory);
    } else {
      FreshStart(d, s, memory);
    }
  }

  /** A harmful session leaves a status file behind. */
  lemma HarmedKeepsStatus(d: Disk, s: Session, memory: nat -> byte)
    ensures !Harmless(d, s) ==> After(d, s, memory).status.Some?
  {
    hide Print, Slice, ReadOffset, ResumeAt, ToInt32;
  }

  /** Without a status file the old data file is truncated: the session does what it would with no file at all. */
  lemma FreshStart(d: Disk, s: Session, memory: nat -> byte)
    requires d.status.None? && Possible(s, ResumeAt(d, s))
    ensures Resumable(After(d, s, memory), memory) <==> Harmless(d, s)
    ensures Harmless(d, s) && s.dataOpens ==> Consistent(After(d, s, memory), memory)
  {
    var none := Disk(None, None);
    if s.dataOpens {
      assert After(d, s, memory) == After(none, s, memory) && Harmless(d, s) == Harmless(none, s);
      ConsistentIffHarmless(none, s, memory);
      HarmedKeepsStatus(none, s, memory);
    }
  }

  /** A session continues at the end of the file, or from an empty one. */
  lemma StartsAtRecorded(d: Disk, s: Session, memory: nat -> byte)
    requires Resumable(d, memory)
    ensures !Unreadable(d)
    ensures Opened(d, s) == Slice(memory, 0, ResumeAt(d, s))
    ensures ResumeAt(d, s) == if d.status.Some? && s.resume then Recorded(d) else 0
  {
    if d.status.Some? { RecordedOffset(Recorded(d)); }
  }

  lemma StaleStatus(recorded: nat, length: nat)
    ensures Print(length) == Print(recorded) <==> length == recorded
  {
    if Print(length) == Print(recorded) { PrintInjective(length, recorded); }
  }

  lemma ConsistentAfterTransfer(d: Disk, s: Session, memory: nat -> byte)
    requires Consistent(d, memory) && Possible(s, ResumeAt(d, s)) && Transfers(d, s)
    requires Opened(d, s) + Slice(memory, ResumeAt(d, s), s.written) == Slice(memory, 0, ResumeAt(d, s) + s.written)
    requires |Opened(d, s)| == ResumeAt(d, s)
    ensures Consistent(After(d, s, memory), memory) <==> Harmless(d, s)
  {
    hide Print, Slice, ReadOffset, Unreadable, ToInt32, Opened, ResumeAt;
    var offset := ResumeAt(d, s);
    StaleStatus(Recorded(d), offset + s.written);
    StaleStatus(s.got + offset, offset + s.written);
  }

  /** With working local files, only one kind of session breaks the pair: a declined resume whose transfer then fails. */
  lemma OnlyDeclinedResumeHarms(d: Disk, s: Session, memory: nat -> byte)
    requires Resumable(d, memory) && Possible(s, ResumeAt(d, s))
    requires s.dataOpens && s.statusOpens && s.statusRemoved && (s.got >= 0 ==> s.written == s.got)
    ensures !Consistent(After(d, s, memory), memory) <==>
            d.status.Some? && !s.resume && s.got < 0 && Recorded(d) > 0
  {
    ResumableIffHarmless(d, s, memory);
    StartsAtRecorded(d, s, memory);
    hide After, Print, ReadOffset, ToInt32;
  }

  /** How a session ends, and what it leaves, when its local files work: it goes on where the file ends, or from the start. */
  lemma SessionOutcome(d: Disk, s: Session, memory: nat -> byte)
    requires Resumable(d, memory) && Possible(s, ResumeAt(d, s))
    requires s.statusOpens && s.statusRemoved && (s.got >= 0 ==> s.written == s.got)
    ensures var offset := if d.status.Some? && s.resume then |d.file.value| else 0;
            var after := After(d, s, memory);
            if !s.dataOpens then
              Result(d, s) == Failed && after == d
            else if offset > s.length || s.got < 0 then
              Result(d, s) == Failed && after == Disk(Some(Slice(memory, 0, offset)), d.status)
            else if s.got == s.length - offset then
              Result(d, s) == Completed && after == Disk(Some(Slice(memory, 0, s.length)), None)
            else
              && Result(d, s) == Unfinished && after.file == Some(Slice(memory, 0, offset + s.got))
              && after.status == Some(Print(offset + s.got))
  {
    hide Print, ReadOffset, Slice, ResumeAt, Opened, Unreadable, After, Result;
    StartsAtRecorded(d, s, memory);
    if s.dataOpens && ResumeAt(d, s) <= s.length && s.got >= 0 {
      SliceAppend(memory, ResumeAt(d, s), s.got);
      TransferOutcome(d, s, memory);
    } else {
      NoTransfer(d, s, memory);
    }
  }

  lemma NoTransfer(d: Disk, s: Session, memory: nat -> byte)
    requires !Unreadable(d) && (!s.dataOpens || ResumeAt(d, s) > s.length || s.got < 0)
    ensures Result(d, s) == Failed
    ensures After(d, s, memory) == if s.dataOpens then d.(file := Some(Opened(d, s))) else d
  {
    hide ReadOffset, ResumeAt, Opened, Unreadable;
  }

  lemma TransferOutcome(d: Disk, s: Session, memory: nat -> byte)
    requires !Unreadable(d) && s.dataOpens && ResumeAt(d, s) <= s.length && s.got >= 0
    requires Possible(s, ResumeAt(d, s)) && s.statusOpens && s.statusRemoved && s.written == s.got
    ensures var offset := ResumeAt(d, s);
            var file := Some(Opened(d, s) + Slice(memory, offset, s.got));
            if s.got == s.length - offset then
              Result(d, s) == Completed && After(d, s, memory) == Disk(file, None)
            else
              Result(d, s) == Unfinished && After(d, s, memory) == Disk(file, Some(Print(offset + s.got)))
  {
    hide Print, ReadOffset, Slice, ResumeAt, Opened, Unreadable;
    var offset := ResumeAt(d, s);
    assert s.got + offset < UINT32_MODULUS;
    assert s.got == ToInt32(s.length - offset) <==> s.got == s.length - offset;
  }

  predicate AllHarmless(d: Disk, sessions: seq<Session>, memory: nat -> byte)
    decreases |sessions|
  {
    sessions == [] ||
    (Possible(sessions[0], ResumeAt(d, sessions[0])) && Harmless(d, sessions[0])
     && AllHarmless(After(d, sessions[0], memory), sessions[1..], memory))
  }

  function AfterAll(d: Disk, sessions: seq<Session>, memory: nat -> byte): Disk
    decreases |sessions|
  {
    if sessions == [] then d else AfterAll(After(d, sessions[0], memory), sessions[1..], memory)
  }

  lemma {:induction false} SessionsStayConsistent(d: Disk, sessions: seq<Session>, memory: nat -> byte)
    requires Consistent(d, memory) && AllHarmless(d, sessions, memory)
    ensures Consistent(AfterAll(d, sessions, memory), memory)
    decreases |sessions|
  {
    if sessions != [] {
      ConsistentIffHarmless(d, sessions[0], memory);
      SessionsStayConsistent(After(d, sessions[0], memory), sessions[1..], memory);
    }
  }

  lemma {:induction false} SessionsStayResumable(d: Disk, sessions: seq<Session>, memory: nat -> byte)
    requires Resumable(d, memory) && AllHarmless(d, sessions, memory)
    ensures Resumable(AfterAll(d, sessions, memory), memory)
    decreases |sessions|
  {
    hide After, Resumable, Harmless;
    if sessions != [] {
      ResumableIffHarmless(d, sessions[0], memory);
      SessionsStayResumable(After(d, sessions[0], memory), sessions[1..], memory);
    }
  }

  /** However the earlier sessions were cut off, and whatever file was there before the first of them, a session that
      completes leaves what one uninterrupted download would. */
  lemma CompletedEqualsOneShot(d: Disk, sessions: seq<Session>, last: Session, memory: nat -> byte)
    requires Resumable(d, memory) && AllHarmless(d, sessions, memory)
    requires var before := AfterAll(d, sessions, memory);
             Possible(last, ResumeAt(before, last)) && Result(before, last) == Completed && last.written == last.got
    ensures var before := AfterAll(d, sessions, memory);
            After(before, last, memory).file == Some(Slice(memory, 0, last.length))
    ensures last.statusRemoved ==>
              After(AfterAll(d, sessions, memory), last, memory) == Disk(Some(Slice(memory, 0, last.length)), None)
  {
    SessionsStayResumable(d, sessions, memory);
    var before := AfterAll(d, sessions, memory);
    hide AllHarmless, AfterAll, Resumable, ReadOffset;
    StartsAtRecorded(before, last, memory);
    SliceAppend(memory, ResumeAt(before, last), last.written);
  }

  /** The declined resume that goes wrong: the file is emptied, the old offset stays, and the next resume appends at the wrong place. */
  lemma DeclinedResumeCorrupts(memory: nat -> byte)
    requires memory(0) != memory(2)
    ensures var d := Disk(Some(Slice(memory, 0, 2)), Some(Print(2)));
            var declined := Session(3, false, true, -1, 0, true, true);
            var resumed := Session(3, true, true, 1, 1, true, true);
            var end := After(After(d, declined, memory), resumed, memory);
            && Consistent(d, memory) && Result(After(d, declined, memory), resumed) == Completed
            && end.file != Some(Slice(memory, 0, 3)) && !Consistent(end, memory)
  {
    hide Print, ScanInt, ReadOffset;
    RecordedOffset(2);
    assert Slice(memory, 2, 1)[0] == memory(2) && Slice(memory, 0, 1)[0] == memory(0);
  }
}
