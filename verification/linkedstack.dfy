/** LinkedStack<T> of linkedstack.cs: a stack kept as a chain of items, each
    pointing at the item below it, with a separately maintained Count.

    Items are never changed once they are linked, so the chain is an
    immutable list here and a Clone shares it. Count is a C# int: it
    wraps around at the 32-bit bounds, and Pop lowers it before it checks
    for an empty stack. */
module LinkedStack {
  import opened Wrappers

  /** A 32-bit signed integer, the type of Count. */
  newtype Int32 = x: int | -0x8000_0000 <= x < 0x8000_0000

  const Int32Min: Int32 := -0x8000_0000
  const Int32Max: Int32 := 0x7FFF_FFFF

  /** The unchecked ++ of C#: one up, wrapping from the largest value to the smallest. */
  function Inc(x: Int32): (r: Int32)
    ensures r as int == (x as int + 1 - Int32Min as int) % 0x1_0000_0000 + Int32Min as int
  {
    if x == Int32Max then Int32Min else x + 1
  }

  /** The unchecked -- of C#: one down, wrapping from the smallest value to the largest. */
  function Dec(x: Int32): (r: Int32)
    ensures r as int == (x as int - 1 - Int32Min as int) % 0x1_0000_0000 + Int32Min as int
  {
    if x == Int32Min then Int32Max else x - 1
  }

  /** LinkedStackItem<T>: Nil stands for a null Previous (or a null Last). */
  datatype Chain<T> = Nil | Item(value: T, previous: Chain<T>)

  /** LinkedStack<T>: the top item and the Count property. */
  datatype Stack<T> = Stack(last: Chain<T>, count: Int32)

  /** The exception Pop raises on an empty stack. */
  datatype StackError = InvalidOperation

  /** The number of items on a chain. */
  function Length<T>(c: Chain<T>): nat {
    match c
    case Nil => 0
    case Item(_, p) => 1 + Length(p)
  }

  /** The values on a chain, top first. */
  function Contents<T>(c: Chain<T>): (r: seq<T>)
    ensures |r| == Length(c)
  {
    match c
    case Nil => []
    case Item(v, p) => [v] + Contents(p)
  }

  /** The class invariant: Count is the length of the chain below Last. */
  predicate Valid<T>(s: Stack<T>) {
    s.count as int == Length(s.last)
  }

  /** A new LinkedStack<T>: no items, Count 0. */
  function Empty<T>(): (r: Stack<T>)
    ensures Valid(r) && Contents(r.last) == []
  {
    Stack(Nil, 0)
  }

  /** Push: the new item goes on top, linked to the old top; Count goes up by one. */
  function Push<T>(s: Stack<T>, x: T): (r: Stack<T>)
    ensures Contents(r.last) == [x] + Contents(s.last)
    ensures r.count == Inc(s.count)
  {
    Stack(Item(x, s.last), Inc(s.count))
  }

  /** Pop: Count goes down first; then an empty stack raises
      InvalidOperation and a non-empty one gives up its top value. */
  function Pop<T>(s: Stack<T>): (r: (Stack<T>, Result<T, StackError>))
    ensures r.0.count == Dec(s.count)
    ensures r.1.Failure? <==> Contents(s.last) == []
    ensures r.1.Failure? ==> r.1.error == InvalidOperation && r.0.last == s.last
    ensures r.1.Success? ==> Contents(s.last) == [r.1.value] + Contents(r.0.last)
  {
    var count := Dec(s.count);
    match s.last
    case Nil => (Stack(s.last, count), Failure(InvalidOperation))
    case Item(v, p) => (Stack(p, count), Success(v))
  }

  /** Peek: the top value; the stack must not be empty (the source
      dereferences a null Last otherwise). */
  function Peek<T>(s: Stack<T>): (r: T)
    requires s.last.Item?
    ensures Contents(s.last)[0] == r
  {
    s.last.value
  }

  /** Clear: no items, Count 0. */
  function Clear<T>(s: Stack<T>): (r: Stack<T>)
    ensures Valid(r) && Contents(r.last) == []
  {
    Stack(Nil, 0)
  }

  /** Clone: a second stack sharing the same chain and Count. */
  function Clone<T>(s: Stack<T>): (r: Stack<T>)
    ensures Contents(r.last) == Contents(s.last) && r.count == s.count
    ensures Valid(r) <==> Valid(s)
  {
    Stack(s.last, s.count)
  }

  /** Inc and Dec undo each other, wrap-around included. */
  lemma IncDec(x: Int32)
    ensures Dec(Inc(x)) == x && Inc(Dec(x)) == x
  {
  }

  /** Push keeps the invariant as long as Count does not wrap. */
  lemma PushValid<T>(s: Stack<T>, x: T)
    requires Valid(s) && s.count < Int32Max
    ensures Valid(Push(s, x))
  {
  }

  /** Pushing onto a stack of Int32Max items wraps Count to Int32Min. */
  lemma PushWraps<T>(s: Stack<T>, x: T)
    requires Valid(s) && s.count == Int32Max
    ensures Push(s, x).count == Int32Min && !Valid(Push(s, x))
  {
  }

  /** A Pop that succeeds keeps the invariant. */
  lemma PopValid<T>(s: Stack<T>)
    requires Valid(s) && s.last.Item?
    ensures Pop(s).1.Success? && Valid(Pop(s).0)
  {
  }

  /** The quirk: Pop on a valid empty stack raises InvalidOperation but has
      already set Count to -1, so the invariant is broken afterwards. */
  lemma PopEmptyBreaks<T>(s: Stack<T>)
    requires Valid(s) && s.last.Nil?
    ensures Pop(s).1 == Failure(InvalidOperation)
    ensures Pop(s).0 == Stack(Nil, -1) && !Valid(Pop(s).0)
  {
  }

  /** LIFO: Pop right after Push(x) returns x and gives back the stack as
      it was, Last and Count both. */
  lemma PushPop<T>(s: Stack<T>, x: T)
    ensures Pop(Push(s, x)) == (s, Success(x))
    ensures Peek(Push(s, x)) == x
  {
    IncDec(s.count);
  }

  /** A clone starts with the original's contents, and Push or Pop on it
      act on those contents; stacks are values, so the original is untouched. */
  lemma CloneIndependent<T>(s: Stack<T>, x: T)
    ensures Contents(Clone(s).last) == Contents(s.last)
    ensures Contents(Push(Clone(s), x).last) == [x] + Contents(s.last)
    ensures Pop(Clone(s)).1.Success? ==> Contents(Pop(Clone(s)).0.last) == Contents(s.last)[1..]
  {
  }

  /** Pushing the values xs one after another. */
  function PushAll<T>(s: Stack<T>, xs: seq<T>): (r: Stack<T>)
    decreases |xs|
  {
    if |xs| == 0 then s else PushAll(Push(s, xs[0]), xs[1..])
  }

  /** Popping n times, collecting the values that come off (failures included). */
  function PopN<T>(s: Stack<T>, n: nat): (r: (Stack<T>, seq<Result<T, StackError>>))
    ensures |r.1| == n
    decreases n
  {
    if n == 0 then (s, [])
    else
      var (s', v) := Pop(s);
      var (s'', vs) := PopN(s', n - 1);
      (s'', [v] + vs)
  }

  /** Results of popping xs in reverse order. */
  function Popped<T>(xs: seq<T>): (r: seq<Result<T, StackError>>)
    ensures |r| == |xs|
    ensures forall i :: 0 <= i < |xs| ==> r[i] == Success(xs[|xs| - 1 - i])
  {
    if |xs| == 0 then [] else [Success(xs[|xs| - 1])] + Popped(xs[..|xs| - 1])
  }

  /** LIFO over a whole sequence: pushing xs and then popping |xs| times
      gives back the values last-in first-out and the original stack. */
  lemma {:induction false} PushAllPopAll<T>(s: Stack<T>, xs: seq<T>)
    ensures PopN(PushAll(s, xs), |xs|) == (s, Popped(xs))
    decreases |xs|
  {
    if |xs| > 0 {
      var n := |xs|;
      var init := xs[..n - 1];
      PushAllLast(s, xs);
      PushPop(PushAll(s, init), xs[n - 1]);
      PushAllPopAll(s, init);
      assert Popped(xs) == [Success(xs[n - 1])] + Popped(init);
    }
  }

  /** PushAll of a non-empty sequence ends with a Push of its last value. */
  lemma {:induction false} PushAllLast<T>(s: Stack<T>, xs: seq<T>)
    requires |xs| > 0
    ensures PushAll(s, xs) == Push(PushAll(s, xs[..|xs| - 1]), xs[|xs| - 1])
    decreases |xs|
  {
    if |xs| > 1 {
      PushAllLast(Push(s, xs[0]), xs[1..]);
      assert xs[1..][..|xs[1..]| - 1] == xs[..|xs| - 1][1..];
    }
  }

  /** Main: push 5, push 4, pop returns 4. */
  method SampleStack() returns (top: Result<int, StackError>, s: Stack<int>)
    ensures top == Success(4)
    ensures Contents(s.last) == [5] && Valid(s)
  {
    s := Empty();
    s := Push(s, 5);
    s := Push(s, 4);
    var popped := Pop(s);
    s, top := popped.0, popped.1;
  }
}
