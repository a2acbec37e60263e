/**
 * The linked LIFO stack of strings (StackLL.cs). A StackNode is never changed
 * after it is pushed, so its fields are constants and each node records, as
 * ghost state, the keys from itself to the bottom of the stack.
 */
module Stacks {
  import opened Options

  class StackNode {
    const key: string
    const next: StackNode?
    /** The keys from this node down to the bottom of the stack. */
    ghost const items: seq<string>

    ghost predicate Valid()
      decreases |items|
    {
      && |items| > 0
      && items[0] == key
      && (next == null ==> |items| == 1)
      && (next != null ==> next.items == items[1..] && next.Valid())
    }

    /** The source builds the node and then links it to the old head before
        publishing it; here both happen at construction. */
    constructor (key: string, next: StackNode?)
      requires next != null ==> next.Valid()
      ensures Valid() && this.key == key && this.next == next
      ensures items == [key] + Items(next)
    {
      this.key := key;
      this.next := next;
      this.items := [key] + Items(next);
    }
  }

  /** The keys of a (possibly empty) chain of nodes, top first. */
  ghost function Items(n: StackNode?): seq<string>
  {
    if n == null then [] else n.items
  }

  class StackLL {
    var head: StackNode?

    ghost predicate Valid()
      reads this
    {
      head == null || head.Valid()
    }

    /** The stack's contents, top first. */
    ghost function Contents(): seq<string>
      reads this
    {
      Items(head)
    }

    constructor ()
      ensures Valid() && Contents() == []
    {
      head := null;
    }

    method DeleteStack()
      modifies this
      ensures Valid() && Contents() == []
    {
      head := null;
    }

    method Push(key: string)
      requires Valid()
      modifies this
      ensures Valid() && Contents() == [key] + old(Contents())
    {
      var newNode := new StackNode(key, head);
      head := newNode;
    }

    /** Removes and returns the top key; `None` stands for the source's `null` on an empty stack. */
    method Pop() returns (key: Option<string>)
      requires Valid()
      modifies this
      ensures Valid()
      ensures old(Contents()) == [] ==> key == None && Contents() == []
      ensures old(Contents()) != [] ==> key == Some(old(Contents())[0]) && Contents() == old(Contents())[1..]
    {
      key := None;
      if head != null {
        key := Some(head.key);
        head := head.next;
      }
    }

    function IsEmpty(): (empty: bool)
      reads this
      requires Valid()
      ensures empty <==> Contents() == []
    {
      head == null
    }
  }

  /** A push followed by a pop hands back the pushed key and restores the stack. */
  method PushThenPop(s: StackLL, x: string) returns (y: Option<string>)
    requires s.Valid()
    modifies s
    ensures s.Valid() && y == Some(x) && s.Contents() == old(s.Contents())
  {
    s.Push(x);
    y := s.Pop();
  }

  /** Pushing a sequence and then popping as many keys yields the sequence reversed. */
  method PushAllThenPopAll(s: StackLL, xs: seq<string>) returns (ys: seq<string>)
    requires s.Valid()
    modifies s
    ensures s.Valid() && s.Contents() == old(s.Contents())
    ensures |ys| == |xs| && forall k :: 0 <= k < |xs| ==> ys[k] == xs[|xs| - 1 - k]
  {
    for i := 0 to |xs|
      invariant s.Valid()
      invariant |s.Contents()| == i + |old(s.Contents())|
      invariant s.Contents()[i..] == old(s.Contents())
      invariant forall k :: 0 <= k < i ==> s.Contents()[k] == xs[i - 1 - k]
    {
      s.Push(xs[i]);
    }
    ghost var pushed := s.Contents()[..|xs|];
    assert s.Contents() == pushed + old(s.Contents());
    ys := [];
    for i := 0 to |xs|
      invariant s.Valid()
      invariant ys == pushed[..i]
      invariant s.Contents() == pushed[i..] + old(s.Contents())
    {
      var y := s.Pop();
      ys := ys + [y.value];
    }
  }
}
