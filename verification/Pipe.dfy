/**
  The ring buffer of Kernel/pipe.c. A position may stay at the buffer's size until the next
  access wraps it. The semaphores that should hold a writer back from a full buffer, and a reader
  from an empty one, appear as the guard `Ready`.
 */
module Pipe {
  import opened Bytes

  const SIZE: nat := 1024
  const EOF: byte := 1

  datatype State = State(buffer: seq<byte>, writePos: nat, readPos: nat, left: int)

  function Wrapped(pos: nat): nat {
    if pos == SIZE then 0 else pos
  }

  ghost predicate InBounds(s: State) {
    |s.buffer| == SIZE && s.writePos <= SIZE && s.readPos <= SIZE
  }

  /** One pass through the loop of `pipe_write`. */
  ghost function Put(s: State, b: byte): State
    requires InBounds(s)
  {
    var w := Wrapped(s.writePos);
    State(s.buffer[w := b], w + 1, s.readPos, s.left + 1)
  }

  /** One pass through the loop of `pipe_read`. */
  ghost function Get(s: State): (byte, State)
    requires InBounds(s)
  {
    var r := Wrapped(s.readPos);
    (s.buffer[r], State(s.buffer, s.writePos, r + 1, s.left - 1))
  }

  ghost predicate Sound(s: State) {
    && InBounds(s) && 0 <= s.left <= SIZE
    && (s.readPos + s.left == s.writePos || s.readPos + s.left == s.writePos + SIZE)
  }

  function At(readPos: nat, i: nat): (k: nat)
    ensures k < SIZE
  {
    (readPos + i) % SIZE
  }

  /** The bytes written and not yet read, oldest first. */
  ghost function Contents(s: State): (c: seq<byte>)
    requires Sound(s)
    ensures |c| == s.left
  {
    seq(s.left, i requires 0 <= i < s.left => s.buffer[At(s.readPos, i)])
  }

  lemma AtWraps(readPos: nat, i: nat)
    requires readPos <= SIZE
    ensures At(Wrapped(readPos), i) == At(readPos, i)
    ensures At(readPos + 1, i) == At(readPos, i + 1)
    ensures At(readPos, 0) == Wrapped(readPos)
  {
    assert (SIZE + i) % SIZE == i % SIZE;
  }

  lemma PutAppends(s: State, b: byte)
    requires Sound(s) && s.left < SIZE
    ensures Sound(Put(s, b)) && Contents(Put(s, b)) == Contents(s) + [b]
  {
  }

  lemma GetTakes(s: State)
    requires Sound(s) && s.left > 0
    ensures var (b, t) := Get(s); Sound(t) && [b] + Contents(t) == Contents(s)
  {
  }

  /** Without the writer's guard the oldest byte is lost: the next read finds the new one in its place. */
  lemma OverrunLoses(s: State, b: byte)
    requires Sound(s) && s.left == SIZE
    ensures Get(Put(s, b)).0 == b && !Sound(Put(s, b))
    ensures Get(Put(s, b)).0 == Contents(s)[0] <==> b == Contents(s)[0]
  {
    AtWraps(s.readPos, 0);
    AtWraps(s.writePos, 0);
  }

  /** A step is in order, and answers what a queue would, iff its guard holds. */
  ghost predicate IsQueueStep(s: State, e: Event)
    requires Sound(s)
  {
    match e
    case Write(b) => Sound(Put(s, b)) && Contents(Put(s, b)) == Contents(s) + [b]
    case Read => var (b, t) := Get(s); Sound(t) && [b] + Contents(t) == Contents(s)
  }

  lemma QueueStepIff(s: State, e: Event)
    requires Sound(s)
    ensures IsQueueStep(s, e) <==> Ready(s, e)
  {
    if Ready(s, e) {
      match e
      case Write(b) => PutAppends(s, b);
      case Read => GetTakes(s);
    }
  }

  // ---- Runs --------------------------------------------------------------

  datatype Event = Write(b: byte) | Read

  /** What the semaphores are there to ensure. */
  ghost predicate Ready(s: State, e: Event) {
    match e
    case Write(_) => s.left < SIZE
    case Read => s.left > 0
  }

  ghost function Next(s: State, e: Event): State
    requires InBounds(s)
  {
    match e
    case Write(b) => Put(s, b)
    case Read => Get(s).1
  }

  ghost predicate CanRun(s: State, run: seq<Event>)
    requires InBounds(s)
    decreases |run|
  {
    run == [] || (Ready(s, run[0]) && CanRun(Next(s, run[0]), run[1..]))
  }

  ghost function Run(s: State, run: seq<Event>): State
    requires InBounds(s)
    decreases |run|
  {
    if run == [] then s else Run(Next(s, run[0]), run[1..])
  }

  ghost function BytesRead(s: State, run: seq<Event>): seq<byte>
    requires InBounds(s)
    decreases |run|
  {
    if run == [] then []
    else (if run[0].Read? then [Get(s).0] else []) + BytesRead(Next(s, run[0]), run[1..])
  }

  ghost function BytesWritten(run: seq<Event>): seq<byte> {
    if run == [] then []
    else (if run[0].Write? then [run[0].b] else []) + BytesWritten(run[1..])
  }

  /** What was read, then what is still in the buffer, is what was in the buffer, then what was written. */
  lemma {:induction false} RunsAreFifo(s: State, run: seq<Event>)
    requires Sound(s) && CanRun(s, run)
    ensures Sound(Run(s, run))
    ensures BytesRead(s, run) + Contents(Run(s, run)) == Contents(s) + BytesWritten(run)
    decreases |run|
  {
    hide Contents, Put, Get;
    if run != [] {
      var t := Next(s, run[0]);
      match run[0] {
        case Write(b) =>
          PutAppends(s, b);
          RunsAreFifo(t, run[1..]);
          assert Contents(s) + BytesWritten(run) == Contents(t) + BytesWritten(run[1..]);
        case Read =>
          GetTakes(s);
          RunsAreFifo(t, run[1..]);
          assert BytesRead(s, run) + Contents(Run(s, run)) == [Get(s).0] + (Contents(t) + BytesWritten(run[1..]));
      }
    }
  }

  /** From a new pipe, the bytes read are the first of the bytes written. */
  lemma NewPipeIsFifo(buffer: seq<byte>, run: seq<Event>)
    requires |buffer| == SIZE && CanRun(State(buffer, 0, 0, 0), run)
    ensures var s := State(buffer, 0, 0, 0);
            |BytesRead(s, run)| <= |BytesWritten(run)| && BytesRead(s, run) == BytesWritten(run)[..|BytesRead(s, run)|]
  {
    var s := State(buffer, 0, 0, 0);
    RunsAreFifo(s, run);
    assert Contents(s) == [];
    assert BytesWritten(run) == BytesRead(s, run) + Contents(Run(s, run));
  }

  // ---- The program -------------------------------------------------------

  class Pipe {
    const buffer: array<byte>
    var writePos: nat
    var readPos: nat
    var left: int

    ghost function Value(): State
      reads this, buffer
    {
      State(buffer[..], writePos, readPos, left)
    }

    /** The fields `create_pipe` sets. */
    constructor ()
      ensures Sound(Value()) && Contents(Value()) == [] && fresh(buffer)
    {
      buffer := new byte[SIZE];
      writePos, readPos, left := 0, 0, 0;
    }

    method WriteByte(b: byte)
      requires InBounds(Value())
      modifies this, buffer
      ensures Value() == Put(old(Value()), b)
    {
      if writePos == SIZE {
        writePos := 0;
      }
      buffer[writePos] := b;
      writePos := writePos + 1;
      left := left + 1;
    }

    method ReadByte() returns (b: byte)
      requires InBounds(Value())
      modifies this
      ensures (b, Value()) == Get(old(Value()))
    {
      if readPos == SIZE {
        readPos := 0;
      }
      b := buffer[readPos];
      readPos := readPos + 1;
      left := left - 1;
    }

    /** A call of `pipe_write` that need not wait. */
    method Write(message: seq<byte>)
      requires Sound(Value()) && |message| <= SIZE - left
      modifies this, buffer
      ensures Sound(Value()) && Contents(Value()) == old(Contents(Value())) + message
    {
      var i := 0;
      while i < |message|
        invariant 0 <= i <= |message|
        invariant Sound(Value()) && Contents(Value()) == old(Contents(Value())) + message[..i]
      {
        PutAppends(Value(), message[i]);
        WriteByte(message[i]);
        assert message[..i + 1] == message[..i] + [message[i]];
        i := i + 1;
      }
    }

    /** A call of `pipe_read` that need not wait; it stops behind an end-of-file byte. */
    method Read(size: nat) returns (dest: seq<byte>, result: int)
      requires Sound(Value()) && size <= left
      modifies this
      ensures Sound(Value()) && dest + Contents(Value()) == old(Contents(Value()))
      ensures result == 0 ==> |dest| == size && EOF !in dest
      ensures result != 0 ==>
                result == -1 && 0 < |dest| <= size && dest[|dest| - 1] == EOF && EOF !in dest[..|dest| - 1]
    {
      dest := [];
      var i := 0;
      while i < size
        invariant 0 <= i <= size && |dest| == i && EOF !in dest
        invariant Sound(Value()) && dest + Contents(Value()) == old(Contents(Value()))
      {
        ghost var before := dest;
        GetTakes(Value());
        var b := ReadByte();
        dest := dest + [b];
        assert dest + Contents(Value()) == before + ([b] + Contents(Value()));
        if b == EOF {
          assert dest[..|dest| - 1] == before;
          return dest, -1;
        }
        i := i + 1;
      }
      result := 0;
    }
  }
}
