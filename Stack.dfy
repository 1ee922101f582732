/**
 * The array-backed stack of src/data-structures/stack/Stack.js: the top of
 * the stack is the last element of the backing array.
 */
module Stack {
  import opened Wrappers
  import opened SeqSpec

  class Stack<T> {
    /** The backing array, bottom first. */
    var stack: seq<T>

    constructor ()
      ensures stack == []
    {
      stack := [];
    }

    /** Adds `item` on top. */
    method Push(item: T)
      modifies this
      ensures stack == old(stack) + [item]
      ensures GetSize() == old(GetSize()) + 1
    {
      stack := stack + [item];
    }

    /** Removes and returns the top element; `None` (JavaScript's `undefined`) when empty. */
    method Pop() returns (top: Option<T>)
      modifies this
      ensures old(stack) == [] ==> top == None && stack == []
      ensures old(stack) != [] ==> top == Some(old(stack)[|old(stack)| - 1])
      ensures old(stack) != [] ==> stack == old(stack)[..|old(stack)| - 1]
    {
      if stack == [] {
        return None;
      }
      top := Some(stack[|stack| - 1]);
      stack := stack[..|stack| - 1];
    }

    /** The number of stored elements. */
    function GetSize(): (size: nat)
      reads this
      ensures size == 0 <==> stack == []
    {
      |stack|
    }

    /** The top element without removing it; `None` when empty. */
    function Peek(): (top: Option<T>)
      reads this
      ensures top.None? <==> GetSize() == 0
      ensures top.Some? ==> top.value in stack
    {
      if stack == [] then None else Some(stack[|stack| - 1])
    }

    /** Empties the backing array in place. */
    method Clear()
      modifies this
      ensures stack == [] && GetSize() == 0
    {
      stack := [];
    }
  }

  /** `push(x)` then `pop()` returns `x` and restores the previous contents. */
  method PushThenPop<T>(s: Stack<T>, x: T) returns (top: Option<T>)
    modifies s
    ensures top == Some(x) && s.stack == old(s.stack)
  {
    s.Push(x);
    top := s.Pop();
    assert (old(s.stack) + [x])[..|old(s.stack)|] == old(s.stack);
  }

  /**
   * Pushing `items` onto a new stack and popping until it is empty gives
   * them back last first: the stack is last-in, first-out.
   */
  method PushAllPopAll<T>(items: seq<T>) returns (popped: seq<T>)
    ensures popped == Reversed(items)
  {
    var s := new Stack();
    for i := 0 to |items|
      invariant s.stack == items[..i]
    {
      s.Push(items[i]);
    }
    popped := [];
    while s.GetSize() != 0
      invariant s.stack + Reversed(popped) == items
      decreases |s.stack|
    {
      var top := s.Pop();
      popped := popped + [top.value];
    }
  }
}
