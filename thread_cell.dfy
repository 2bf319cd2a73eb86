/**
  A single-writer cell: any thread may read it, the first thread that takes
  mutable access becomes its writer, and a mutable access from any other
  thread is a fault (a panic) until the writer is reset.
  Thread identities are the type parameter `Tid`, compared only for equality.
 */
module ThreadCells {
  import opened Wrappers

  /** The value of a cell: its data and the recorded writer, if any. */
  datatype Cell<T, Tid> = Cell(data: T, writeThread: Option<Tid>)

  /** The panic raised by a mutable access from `accessor` while `owner` is the writer. */
  datatype Fault<Tid> = CrossThreadWrite(accessor: Tid, owner: Tid)

  /**
    One access to a cell: a read by `reader`, a write of `value` by `writer`,
    or `reset_thread`. The reader is recorded but never checked: any thread
    may read.
   */
  datatype Access<T, Tid> = Read(reader: Tid) | Write(writer: Tid, value: T) | Reset

  datatype Outcome<T, Tid> = Ok(cell: Cell<T, Tid>) | Panic(fault: Fault<Tid>)

  /** Whether a mutable access from `id` is allowed while `owner` is recorded. */
  predicate MayWrite<Tid(==)>(owner: Option<Tid>, id: Tid) {
    owner.None? || owner.value == id
  }

  /** The effect of one access. */
  function Step<T, Tid(==)>(c: Cell<T, Tid>, a: Access<T, Tid>): (r: Outcome<T, Tid>)
    ensures a.Read? ==> r == Ok(c)
    ensures a.Reset? ==> r == Ok(Cell(c.data, None))
    ensures a.Write? ==> (r.Ok? <==> MayWrite(c.writeThread, a.writer))
    ensures a.Write? && r.Ok? ==> r.cell == Cell(a.value, Some(a.writer))
    ensures a.Write? && r.Panic? ==> r.fault == CrossThreadWrite(a.writer, c.writeThread.value)
  {
    match a
    case Read(_) => Ok(c)
    case Reset => Ok(c.(writeThread := None))
    case Write(id, v) =>
      match c.writeThread
      case Some(owner) =>
        if id != owner then Panic(CrossThreadWrite(id, owner)) else Ok(Cell(v, Some(id)))
      case None => Ok(Cell(v, Some(id)))
  }

  /** A sequence of accesses, stopping at the first panic. */
  function Run<T, Tid(==)>(c: Cell<T, Tid>, accesses: seq<Access<T, Tid>>): Outcome<T, Tid>
    decreases |accesses|
  {
    if accesses == [] then Ok(c)
    else
      match Step(c, accesses[0])
      case Panic(f) => Panic(f)
      case Ok(c') => Run(c', accesses[1..])
  }

  /** The threads that take mutable access, in order. */
  function Writers<T, Tid>(accesses: seq<Access<T, Tid>>): (w: seq<Tid>)
  {
    if accesses == [] then []
    else if accesses[0].Write? then [accesses[0].writer] + Writers(accesses[1..])
    else Writers(accesses[1..])
  }

  predicate NoReset<T, Tid>(accesses: seq<Access<T, Tid>>) {
    forall i :: 0 <= i < |accesses| ==> !accesses[i].Reset?
  }

  /** The writer that a run without resets must keep to: the recorded one, or else the first. */
  function Designated<Tid>(owner: Option<Tid>, writers: seq<Tid>): Option<Tid> {
    if owner.Some? then owner else if writers == [] then None else Some(writers[0])
  }

  /**
    Without a reset, a sequence of accesses runs without a fault exactly when
    every mutable access comes from one thread, the recorded writer if there
    is one; the writer afterwards is that thread. Reads never fault.
   */
  lemma {:induction false} SingleWriter<T, Tid>(c: Cell<T, Tid>, accesses: seq<Access<T, Tid>>)
    requires NoReset(accesses)
    ensures Run(c, accesses).Ok? <==>
      forall i :: 0 <= i < |Writers(accesses)| ==>
        Designated(c.writeThread, Writers(accesses)) == Some(Writers(accesses)[i])
    ensures Run(c, accesses).Ok? ==>
      Run(c, accesses).cell.writeThread == Designated(c.writeThread, Writers(accesses))
    decreases |accesses|
  {
    if accesses != [] {
      var a, rest := accesses[0], accesses[1..];
      assert NoReset(rest) by {
        forall i | 0 <= i < |rest| ensures !rest[i].Reset? {
          assert rest[i] == accesses[i + 1];
        }
      }
      assert !a.Reset? by { assert a == accesses[0]; }
      match Step(c, a)
      case Panic(f) =>
        assert a.Write?;
        var w := Writers(accesses);
        assert w[0] == a.writer;
        assert Designated(c.writeThread, w) == c.writeThread;
      case Ok(c') =>
        SingleWriter(c', rest);
        if a.Write? {
          var w := Writers(accesses);
          assert w == [a.writer] + Writers(rest);
          assert Designated(c'.writeThread, Writers(rest)) == Some(a.writer);
          assert Designated(c.writeThread, w) == Some(a.writer);
          if Run(c, accesses).Ok? {
            assert Run(c, accesses) == Run(c', rest);
          } else {
            assert Run(c, accesses) == Run(c', rest);
            var i :| 0 <= i < |Writers(rest)| && Designated(c'.writeThread, Writers(rest)) != Some(Writers(rest)[i]);
            assert w[i + 1] == Writers(rest)[i];
            assert Designated(c.writeThread, w) != Some(w[i + 1]);
            assert !Run(c, accesses).Ok?;
            assert !(forall j :: 0 <= j < |Writers(accesses)| ==>
              Designated(c.writeThread, Writers(accesses)) == Some(Writers(accesses)[j]));
          }
        } else {
          assert c' == c;
          assert Writers(accesses) == Writers(rest);
        }
    }
  }

  /** `ThreadCell<T>`: the data and the recorded writer, updated in place. */
  class ThreadCell<T, Tid(==)> {
    var data: T
    var writeThread: Option<Tid>

    function Value(): Cell<T, Tid>
      reads this
    {
      Cell(data, writeThread)
    }

    /** `new`: the data with no writer recorded. */
    constructor (data: T)
      ensures Value() == Cell(data, None)
    {
      this.data := data;
      writeThread := None;
    }

    /** `reset_thread`: forgets the writer, so that the next one from any thread is accepted. */
    method ResetThread()
      modifies this
      ensures Ok(Value()) == Step(old(Value()), Reset)
      ensures data == old(data) && writeThread == None
    {
      writeThread := None;
    }

    /** `deref`: a read, allowed from every thread, that changes nothing. */
    function Deref(): (r: T)
      reads this
      ensures r == Value().data
    {
      data
    }

    /**
      `deref_mut` from thread `id`, followed by the caller's write of `value`
      through the reference it returns. A fault leaves the cell as it was.
     */
    method DerefMut(id: Tid, value: T) returns (fault: Option<Fault<Tid>>)
      modifies this
      ensures fault.None? <==> MayWrite(old(writeThread), id)
      ensures fault.None? ==> Step(old(Value()), Write(id, value)) == Ok(Value())
      ensures fault.Some? ==> Step(old(Value()), Write(id, value)) == Panic(fault.value)
      ensures fault.Some? ==> unchanged(this)
    {
      if writeThread.Some? {
        if id != writeThread.value {
          return Some(CrossThreadWrite(id, writeThread.value));
        }
      } else {
        writeThread := Some(id);
      }
      data := value;
      fault := None;
    }
  }
}
