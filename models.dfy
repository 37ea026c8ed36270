/** The rubric counter ledger of api/models.py: a rubric row whose primary
    key is its name and whose counter the API raises and lowers in place. */
module Models {

  /** Identifier of a user account (CustomUser's integer primary key). */
  type UserId = int

  /** Longest name the rubric's primary-key column holds. */
  const NameMaxLength: nat := 100

  /** A rubric row as a value: the two columns of the table. */
  datatype RubricRecord = RubricRecord(name: string, counter: int)

  class Rubric {
    var name: string
    var counter: int
    /** How many times this row has been written back to the database. */
    ghost var saves: nat

    /** A new row: the counter column defaults to 0. */
    constructor (name: string)
      requires |name| <= NameMaxLength
      ensures this.name == name && counter == 0 && saves == 0
    {
      this.name := name;
      counter := 0;
      saves := 0;
    }

    /** Writes the row back; the in-memory fields are what is stored. */
    method Save()
      modifies this
      ensures name == old(name) && counter == old(counter)
      ensures saves == old(saves) + 1
    {
      saves := saves + 1;
    }

    /** Raises the counter by exactly one and saves. */
    method IncrementCounter()
      modifies this
      ensures counter == old(counter) + 1
      ensures name == old(name)
      ensures saves == old(saves) + 1
    {
      counter := counter + 1;
      Save();
    }

    /** Lowers a positive counter by one and saves; a counter at (or below)
        zero is left alone and nothing is written. */
    method DecrementCounter()
      modifies this
      ensures old(counter) > 0 ==> counter == old(counter) - 1 && saves == old(saves) + 1
      ensures old(counter) <= 0 ==> counter == old(counter) && saves == old(saves)
      ensures name == old(name)
      ensures old(counter) >= 0 ==> counter >= 0
    {
      if counter > 0 {
        counter := counter - 1;
        Save();
      }
    }

    /** Applies a sequence of increments and decrements, one call each. */
    method ApplyAll(ops: seq<CounterOp>)
      modifies this
      ensures counter == Run(old(counter), ops)
      ensures name == old(name)
      ensures old(counter) >= 0 ==> counter >= 0
    {
      var i := 0;
      while i < |ops|
        invariant 0 <= i <= |ops|
        invariant counter == Run(old(counter), ops[..i])
        invariant name == old(name)
      {
        if ops[i] == Increment {
          IncrementCounter();
        } else {
          DecrementCounter();
        }
        assert ops[..i + 1][..i] == ops[..i];
        i := i + 1;
      }
      assert ops[..i] == ops;
      if old(counter) >= 0 {
        RunNonNegative(old(counter), ops);
      }
    }
  }

  datatype CounterOp = Increment | Decrement

  /** The counter after one operation. */
  function Step(c: int, op: CounterOp): int {
    match op
    case Increment => c + 1
    case Decrement => if c > 0 then c - 1 else c
  }

  /** The counter after a sequence of operations, applied left to right. */
  function Run(c: int, ops: seq<CounterOp>): int
    decreases |ops|
  {
    if ops == [] then c else Step(Run(c, ops[..|ops| - 1]), ops[|ops| - 1])
  }

  function Count(ops: seq<CounterOp>, op: CounterOp): (n: nat)
    ensures n <= |ops|
    decreases |ops|
  {
    if ops == [] then 0
    else Count(ops[..|ops| - 1], op) + (if ops[|ops| - 1] == op then 1 else 0)
  }

  /** From a non-negative counter, no sequence of operations makes it negative. */
  lemma {:induction false} RunNonNegative(c: int, ops: seq<CounterOp>)
    requires c >= 0
    ensures Run(c, ops) >= 0
    decreases |ops|
  {
    if ops != [] { RunNonNegative(c, ops[..|ops| - 1]); }
  }

  /** The clamp only ever absorbs decrements: the counter ends between
      c + increments - decrements and c + increments. */
  lemma {:induction false} RunBounds(c: int, ops: seq<CounterOp>)
    ensures c + Count(ops, Increment) - Count(ops, Decrement) <= Run(c, ops) <= c + Count(ops, Increment)
    decreases |ops|
  {
    if ops != [] { RunBounds(c, ops[..|ops| - 1]); }
  }

  /** With no decrement, the counter is raised by exactly the number of increments. */
  lemma {:induction false} RunWithoutDecrements(c: int, ops: seq<CounterOp>)
    requires Count(ops, Decrement) == 0
    ensures Run(c, ops) == c + |ops|
    decreases |ops|
  {
    if ops != [] {
      RunWithoutDecrements(c, ops[..|ops| - 1]);
    }
  }
}
