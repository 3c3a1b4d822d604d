/** The growable array (DArray) and the exact cost of its growth. */
module GrowableArray {
  import opened Options

  // ---------- Growth, apart from the elements ----------

  /** What decides reallocation, and two counters: slots copied and pushes done. */
  datatype Growth = Growth(size: nat, capacity: nat, copied: nat, pushes: nat)

  datatype Op = Push | Pop

  function Pushed(g: Growth): Growth {
    if g.size == g.capacity
    then Growth(g.size + 1, 2 * g.capacity, g.copied + g.capacity, g.pushes + 1)
    else Growth(g.size + 1, g.capacity, g.copied, g.pushes + 1)
  }

  function Popped(g: Growth): Growth {
    if g.size == 0 then g else g.(size := g.size - 1)
  }

  function Run(c: nat, ops: seq<Op>): Growth {
    if ops == [] then Growth(0, c, 0, 0)
    else
      var g := Run(c, ops[..|ops| - 1]);
      if ops[|ops| - 1].Push? then Pushed(g) else Popped(g)
  }

  /** c times the k-th power of two. */
  ghost function Doubled(c: nat, k: nat): nat {
    if k == 0 then c else 2 * Doubled(c, k - 1)
  }

  /** Capacity is the initial one doubled k times, and every doubling was paid for by
      pushes: the slots copied so far are what the capacity has grown by. */
  ghost predicate Amortised(c: nat, g: Growth) {
    && g.size <= g.capacity && g.size <= g.pushes
    && g.copied + c == g.capacity
    && (g.capacity == c || g.capacity < 2 * g.pushes)
    && exists k: nat :: g.capacity == Doubled(c, k)
  }

  lemma StepAmortised(c: nat, g: Growth)
    requires 0 < c && Amortised(c, g)
    ensures Amortised(c, Pushed(g)) && Amortised(c, Popped(g))
  {
    var k: nat :| g.capacity == Doubled(c, k);
    assert 2 * g.capacity == Doubled(c, k + 1);
  }

  lemma InitiallyAmortised(c: nat)
    ensures Amortised(c, Growth(0, c, 0, 0))
  {
    assert c == Doubled(c, 0);
  }

  /** Over every run from a capacity of at least one, the copying is paid for: it is
      the growth of the capacity, and less than two slots a push. */
  lemma {:induction false} RunAmortised(c: nat, ops: seq<Op>)
    requires 0 < c
    ensures var g := Run(c, ops);
      && Amortised(c, g) && g.size <= g.capacity
      && (g.pushes > 0 ==> g.copied < 2 * g.pushes)
      && (g.pushes == 0 ==> g.copied == 0)
  {
    if ops == [] {
      InitiallyAmortised(c);
    } else {
      RunAmortised(c, ops[..|ops| - 1]);
      StepAmortised(c, Run(c, ops[..|ops| - 1]));
    }
  }

  // ---------- The program ----------

  class DArray {
    var buffer: array<real>
    var actualSize: nat
    ghost const initial: nat
    ghost var growth: Growth

    ghost predicate Valid()
      reads this
    {
      && 0 < initial && Amortised(initial, growth)
      && actualSize == growth.size <= growth.capacity
      && buffer.Length == growth.capacity
    }

    ghost function Contents(): (s: seq<real>)
      requires Valid()
      reads this, buffer
      ensures |s| == actualSize
    {
      buffer[..actualSize]
    }

    /** The source accepts a capacity of zero, but its first push then writes past
        the end of the buffer. */
    constructor (bufferSize: nat)
      requires 0 < bufferSize
      ensures Valid() && fresh(buffer) && Contents() == []
      ensures initial == bufferSize && growth == Growth(0, bufferSize, 0, 0)
    {
      buffer := new real[bufferSize](_ => 0.0);
      actualSize := 0;
      initial := bufferSize;
      growth := Growth(0, bufferSize, 0, 0);
      new;
      InitiallyAmortised(bufferSize);
    }

    method PushBack(value: real)
      requires Valid()
      modifies this, buffer
      ensures Valid() && (buffer == old(buffer) || fresh(buffer))
      ensures Contents() == old(Contents()) + [value] && growth == Pushed(old(growth))
    {
      StepAmortised(initial, growth);
      ghost var copied := 0;
      if actualSize == buffer.Length {
        copied := Reallocate();
      }
      buffer[actualSize] := value;
      actualSize := actualSize + 1;
      growth := Growth(actualSize, buffer.Length, growth.copied + copied, growth.pushes + 1);
    }

    /** `copied` counts the assignments to the new buffer. */
    method Reallocate() returns (ghost copied: nat)
      modifies this`buffer
      ensures fresh(buffer) && buffer.Length == 2 * old(buffer.Length)
      ensures buffer[..old(buffer.Length)] == old(buffer[..])
      ensures copied == old(buffer.Length)
    {
      var size := buffer.Length;
      var newBuffer := new real[2 * size](_ => 0.0);
      copied := 0;
      var i := 0;
      while i < size
        invariant 0 <= i <= size && newBuffer[..i] == buffer[..i] && copied == i
        invariant buffer == old(buffer) && buffer[..] == old(buffer[..]) && fresh(newBuffer)
        modifies newBuffer
      {
        newBuffer[i] := buffer[i];
        copied := copied + 1;
        i := i + 1;
      }
      assert newBuffer[..size] == buffer[..size] == buffer[..];
      buffer := newBuffer;
    }

    /** None stands for the exception thrown on an empty array. */
    method PopBack() returns (r: Option<real>)
      requires Valid()
      modifies this`actualSize, this`growth
      ensures Valid() && growth == Popped(old(growth))
      ensures old(Contents()) == [] ==> r == None && Contents() == []
      ensures old(Contents()) != [] ==>
        var s := old(Contents());
        Contents() == s[..|s| - 1] && r == Some(s[|s| - 1])
    {
      if actualSize == 0 {
        return None;
      }
      StepAmortised(initial, growth);
      growth := Popped(growth);
      actualSize := actualSize - 1;
      assert buffer[..actualSize] == old(buffer[..actualSize])[..actualSize];
      return Some(buffer[actualSize]);
    }
  }
}
