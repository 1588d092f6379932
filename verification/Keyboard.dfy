/** The keyboard buffer of a process (src/dev/keyboard.c): a ring of 1024 bytes whose
    head and tail are 32-bit counters that wrap. */
module Keyboard {
  import opened Memory

  const SIZE: nat := 1024

  /** The buffer as a value. A byte of 0 marks an empty place. */
  datatype Ring = Ring(buffer: seq<Byte>, head: Word, tail: Word)

  function Index(counter: Word): nat { counter % 1024 }

  function Empty(): Ring {
    Ring(seq(1024, _ => 0), 0, 0)
  }

  function Push(r: Ring, c: Byte): Ring
    requires |r.buffer| == SIZE
  {
    Ring(r.buffer[Index(r.tail) := c], r.head, (r.tail + 1) % 0x1_0000_0000)
  }

  /** The state after keyboard_pop, and the character it returns; 0 if there is none. */
  function Pop(r: Ring): (Ring, Byte)
    requires |r.buffer| == SIZE
  {
    var c := r.buffer[Index(r.head)];
    if c == 0 then (r, 0)
    else (Ring(r.buffer[Index(r.head) := 0], (r.head + 1) % 0x1_0000_0000, r.tail), c)
  }

  function Backspace(r: Ring): Ring
    requires |r.buffer| == SIZE
  {
    var tail: Word := (r.tail + 0xFFFF_FFFF) % 0x1_0000_0000;
    Ring(r.buffer[Index(tail) := 0], r.head, tail)
  }

  /** Place i of the queue in the buffer. */
  function Place(r: Ring, i: nat): nat { (r.head + i) % 1024 }

  /** The ring holds the queue q: the characters of q from head on, zeros elsewhere. */
  ghost predicate Holds(r: Ring, q: seq<Byte>) {
    && |r.buffer| == SIZE && |q| <= SIZE
    && r.tail == (r.head + |q|) % 0x1_0000_0000
    && (forall i :: 0 <= i < |q| ==> q[i] != 0 && r.buffer[Place(r, i)] == q[i])
    && (forall i :: |q| <= i < SIZE ==> r.buffer[Place(r, i)] == 0)
  }

  /** 1024 divides 2^32: wrapping a counter does not move its index. */
  lemma WrapIndex(n: nat)
    ensures n % 0x1_0000_0000 % 1024 == n % 1024
  {
    var q, w := n / 0x1_0000_0000, n % 0x1_0000_0000;
    assert n == 1024 * (0x40_0000 * q) + w;
  }

  lemma PlacesApart(head: nat, i: nat, j: nat)
    requires i < SIZE && j < SIZE
    ensures (head + i) % 1024 == (head + j) % 1024 <==> i == j
  {
  }

  /** Counting the head on by one moves every place down by one. */
  lemma PlaceAfterPop(head: Word, i: nat)
    ensures ((head + 1) % 0x1_0000_0000 + i) % 1024 == (head + (i + 1)) % 1024
  {
    WrapIndex(head + 1);
    ModAdd(head + 1, (head + 1) % 0x1_0000_0000, i);
  }

  lemma ModAdd(a: nat, b: nat, i: nat)
    requires a % 1024 == b % 1024
    ensures (a + i) % 1024 == (b + i) % 1024
  {
  }

  lemma TailIndex(r: Ring, q: seq<Byte>)
    requires Holds(r, q)
    ensures Index(r.tail) == Place(r, |q|)
    ensures (r.tail + 1) % 0x1_0000_0000 == (r.head + (|q| + 1)) % 0x1_0000_0000
    ensures |q| > 0 ==> (r.tail + 0xFFFF_FFFF) % 0x1_0000_0000 == (r.head + (|q| - 1)) % 0x1_0000_0000
  {
    WrapIndex(r.head + |q|);
  }

  /** A push adds to the end of the queue if and only if the character is not 0 and the
      queue has fewer than 1024. */
  lemma PushExact(r: Ring, q: seq<Byte>, c: Byte)
    requires Holds(r, q)
    ensures Holds(Push(r, c), q + [c]) <==> c != 0 && |q| < SIZE
  {
    TailIndex(r, q);
    var r', q' := Push(r, c), q + [c];
    if c != 0 && |q| < SIZE {
      forall i | 0 <= i < SIZE ensures r'.buffer[Place(r', i)] == if i < |q'| then q'[i] else 0 {
        PlacesApart(r.head, i, |q|);
        assert Place(r', i) == Place(r, i);
        assert i < |q| ==> r.buffer[Place(r, i)] == q[i];
        assert |q| < i ==> r.buffer[Place(r, i)] == 0;
      }
    } else if c == 0 {
      assert q'[|q|] == 0;
    }
  }

  /** A pop returns and removes the first of the queue; on the empty queue it returns 0. */
  lemma PopFirst(r: Ring, q: seq<Byte>)
    requires Holds(r, q)
    ensures q == [] ==> Pop(r) == (r, 0)
    ensures q != [] ==> Pop(r).1 == q[0] && Holds(Pop(r).0, q[1..])
  {
    assert Index(r.head) == Place(r, 0);
    if q != [] {
      var r' := Pop(r).0;
      forall i | 0 <= i < SIZE ensures r'.buffer[Place(r', i)] == if i < |q| - 1 then q[1..][i] else 0 {
        PlaceAfterPop(r.head, i);
        if i + 1 < SIZE {
          PlacesApart(r.head, i + 1, 0);
        } else {
          FullTurn(r.head);
        }
      }
      TailAfterPop(r.head, |q|);
    }
  }

  lemma FullTurn(head: nat)
    ensures (head + 1024) % 1024 == head % 1024
  {
  }

  lemma TailAfterPop(head: Word, n: nat)
    requires 1 <= n <= SIZE
    ensures (head + n) % 0x1_0000_0000 == ((head + 1) % 0x1_0000_0000 + (n - 1)) % 0x1_0000_0000
  {
  }

  /** A backspace removes the last of the queue if and only if there is one. */
  lemma BackspaceExact(r: Ring, q: seq<Byte>)
    requires Holds(r, q)
    ensures q != [] ==> Holds(Backspace(r), q[..|q| - 1])
    ensures q == [] ==> forall p :: !Holds(Backspace(r), p)
  {
    TailIndex(r, q);
    var r' := Backspace(r);
    if q != [] {
      var n: nat := |q| - 1;
      forall i | 0 <= i < SIZE ensures r'.buffer[Place(r', i)] == if i < n then q[i] else 0 {
        ErasedAt(r, q, i);
      }
    } else {
      forall p ensures !Holds(r', p) {
        BehindHead(r.head, |p|);
      }
    }
  }

  lemma ErasedAt(r: Ring, q: seq<Byte>, i: nat)
    requires Holds(r, q) && q != [] && i < SIZE
    ensures Backspace(r).buffer[Place(Backspace(r), i)] == if i < |q| - 1 then q[i] else 0
  {
    var n: nat := |q| - 1;
    TailIndex(r, q);
    WrapIndex(r.head + n);
    PlacesApart(r.head, i, n);
  }

  lemma BehindHead(head: Word, n: nat)
    ensures n <= SIZE ==> (head + 0xFFFF_FFFF) % 0x1_0000_0000 != (head + n) % 0x1_0000_0000
  {
  }

  // ---- whole runs ----

  datatype Op = PushOp(c: Byte) | PopOp | BackspaceOp

  /** What a run of operations leaves, and the characters its pops return. */
  function Run(r: Ring, ops: seq<Op>): (Ring, seq<Byte>)
    requires |r.buffer| == SIZE
    decreases |ops|
  {
    if ops == [] then (r, [])
    else
      match ops[0]
      case PushOp(c) => Run(Push(r, c), ops[1..])
      case BackspaceOp => Run(Backspace(r), ops[1..])
      case PopOp =>
        var (r1, c) := Pop(r);
        var (r2, out) := Run(r1, ops[1..]);
        (r2, [c] + out)
  }

  /** The same run on a queue. */
  function RunQueue(q: seq<Byte>, ops: seq<Op>): (seq<Byte>, seq<Byte>)
    decreases |ops|
  {
    if ops == [] then (q, [])
    else
      match ops[0]
      case PushOp(c) => RunQueue(q + [c], ops[1..])
      case BackspaceOp => RunQueue(if q == [] then q else q[..|q| - 1], ops[1..])
      case PopOp =>
        var (q2, out) := RunQueue(if q == [] then q else q[1..], ops[1..]);
        (q2, [if q == [] then 0 else q[0]] + out)
  }

  /** Pushes are of characters, into a queue of fewer than 1024; no backspace on empty. */
  predicate Polite(q: seq<Byte>, ops: seq<Op>)
    decreases |ops|
  {
    ops == [] ||
    match ops[0]
    case PushOp(c) => c != 0 && |q| < SIZE && Polite(q + [c], ops[1..])
    case BackspaceOp => q != [] && Polite(q[..|q| - 1], ops[1..])
    case PopOp => Polite(if q == [] then q else q[1..], ops[1..])
  }

  /** Over every polite run the ring is a queue: its pops return what the queue's do,
      however often head and tail wrap. */
  lemma {:induction false} RunRefines(r: Ring, q: seq<Byte>, ops: seq<Op>)
    requires Holds(r, q) && Polite(q, ops)
    ensures Run(r, ops).1 == RunQueue(q, ops).1 && Holds(Run(r, ops).0, RunQueue(q, ops).0)
    decreases |ops|
  {
    hide Holds, Push, Pop, Backspace;
    HoldsSize(r, q);
    if ops != [] {
      match ops[0]
      case PushOp(c) =>
        PushExact(r, q, c);
        RunRefines(Push(r, c), q + [c], ops[1..]);
      case BackspaceOp =>
        BackspaceExact(r, q);
        RunRefines(Backspace(r), q[..|q| - 1], ops[1..]);
      case PopOp =>
        PopFirst(r, q);
        RunRefines(Pop(r).0, if q == [] then q else q[1..], ops[1..]);
    }
  }

  /** From the start: what the pops return is the queue's. */
  lemma RunFromEmpty(ops: seq<Op>)
    requires Polite([], ops)
    ensures Run(Empty(), ops).1 == RunQueue([], ops).1
  {
    hide Run, RunQueue, Polite;
    assert Holds(Empty(), []);
    RunRefines(Empty(), [], ops);
  }

  lemma HoldsSize(r: Ring, q: seq<Byte>)
    requires Holds(r, q)
    ensures |r.buffer| == SIZE
  {
  }

  /** The buffer fields of struct process, updated in place. */
  class KeyboardBuffer {
    const buffer: array<Byte>
    var tail: Word
    var head: Word

    ghost function State(): Ring
      reads this, buffer
    {
      Ring(buffer[..], head, tail)
    }

    constructor ()
      ensures fresh(buffer) && buffer.Length == SIZE && State() == Empty()
    {
      buffer := new Byte[SIZE](_ => 0);
      tail, head := 0, 0;
      new;
      assert buffer[..] == Empty().buffer;
    }

    /** keyboard_backspace */
    method KeyboardBackspace()
      requires buffer.Length == SIZE
      modifies this, buffer
      ensures State() == Backspace(old(State()))
    {
      tail := (tail + 0xFFFF_FFFF) % 0x1_0000_0000;
      var realIndex := tail % 1024;
      buffer[realIndex] := 0;
    }
  }

  /** keyboard_push, given the buffer of the current process, if there is one. */
  method KeyboardPush(current: KeyboardBuffer?, c: Byte)
    requires current != null ==> current.buffer.Length == SIZE
    modifies if current == null then {} else {current, current.buffer}
    ensures current != null ==> current.State() == Push(old(current.State()), c)
  {
    if current == null {
      return;
    }
    var realIndex := current.tail % 1024;
    current.buffer[realIndex] := c;
    current.tail := (current.tail + 1) % 0x1_0000_0000;
  }

  /** keyboard_pop, given the buffer of the current task's process, if there is a task. */
  method KeyboardPop(current: KeyboardBuffer?) returns (c: Byte)
    requires current != null ==> current.buffer.Length == SIZE
    modifies if current == null then {} else {current, current.buffer}
    ensures current == null ==> c == 0
    ensures current != null ==> (current.State(), c) == Pop(old(current.State()))
  {
    if current == null {
      return 0;
    }
    var realIndex := current.head % 1024;
    c := current.buffer[realIndex];
    if c == 0 {
      return 0;
    }
    current.buffer[realIndex] := 0;
    current.head := (current.head + 1) % 0x1_0000_0000;
  }
}
