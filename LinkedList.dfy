/**
 * The singly linked list of src/data-structures/linked-list/LinkedList.js:
 * a chain of nodes reached from `head`, with `tail` pointing at its last
 * node, and a comparator deciding which values are equal.
 */
module LinkedList {
  import opened Wrappers
  import opened SeqSpec
  import Comparator

  /**
   * A chain element: a value and the link to the next node. The list never
   * reassigns a node's value, so `value` is a constant.
   */
  class Node<T> {
    const value: T
    var next: Node?<T>

    constructor (value: T, next: Node?<T> := null)
      ensures this.value == value && this.next == next
    {
      this.value := value;
      this.next := next;
    }
  }

  /** Each of `ns` links to the one after it, and the last one links to `end`. */
  ghost predicate Linked<T>(ns: seq<Node<T>>, end: Node?<T>)
    reads ns
  {
    && (forall i :: 0 <= i < |ns| - 1 ==> ns[i].next == ns[i + 1])
    && (ns != [] ==> ns[|ns| - 1].next == end)
  }

  /** No node occurs twice in `ns`, so a chain of them has no cycle. */
  ghost predicate Distinct<T>(ns: seq<Node<T>>)
  {
    forall i, j :: 0 <= i < j < |ns| ==> ns[i] != ns[j]
  }

  /** The values held by `ns`, in order. */
  ghost function Values<T>(ns: seq<Node<T>>): seq<T>
  {
    seq(|ns|, i requires 0 <= i < |ns| => ns[i].value)
  }

  lemma ValuesAppend<T>(ns: seq<Node<T>>, x: Node<T>)
    ensures Values(ns + [x]) == Values(ns) + [x.value]
  {
  }

  /**
   * `ns` are distinct nodes linked in order from `hd` to `tl`, the last one
   * ending the chain; both ends are null when there are no nodes.
   */
  ghost predicate Chain<T>(ns: seq<Node<T>>, hd: Node?<T>, tl: Node?<T>)
    reads ns
  {
    && Linked(ns, null)
    && Distinct(ns)
    && (ns == [] ==> hd == null && tl == null)
    && (ns != [] ==> hd == ns[0] && tl == ns[|ns| - 1])
  }

  /** The nodes among the first `j` of `ns` whose value `cmp` does not find equal to `value`, in their order. */
  ghost function UnmatchedNodes<T>(ns: seq<Node<T>>, j: nat, value: T, cmp: (T, T) -> int): (r: seq<Node<T>>)
    requires j <= |ns|
    ensures |r| <= j
  {
    if j == 0 then []
    else UnmatchedNodes(ns, j - 1, value, cmp) + (if cmp(ns[j - 1].value, value) == 0 then [] else [ns[j - 1]])
  }

  /** The unmatched nodes are the nodes among the first `j` whose value does not match, and no others. */
  lemma {:induction false} UnmatchedMembers<T>(ns: seq<Node<T>>, j: nat, value: T, cmp: (T, T) -> int)
    requires j <= |ns|
    ensures forall x :: x in UnmatchedNodes(ns, j, value, cmp) ==> x in ns[..j] && cmp(x.value, value) != 0
    ensures forall i :: 0 <= i < j && cmp(ns[i].value, value) != 0 ==> ns[i] in UnmatchedNodes(ns, j, value, cmp)
  {
    if j > 0 {
      UnmatchedMembers(ns, j - 1, value, cmp);
      var r', r := UnmatchedNodes(ns, j - 1, value, cmp), UnmatchedNodes(ns, j, value, cmp);
      assert ns[..j] == ns[..j - 1] + [ns[j - 1]];
      assert forall x :: x in r ==> x in r' || x == ns[j - 1];
    }
  }

  /** The values of the unmatched nodes are the surviving values. */
  lemma {:induction false} ValuesUnmatched<T>(ns: seq<Node<T>>, j: nat, value: T, cmp: (T, T) -> int)
    requires j <= |ns|
    ensures Values(UnmatchedNodes(ns, j, value, cmp)) == Survivors(Values(ns), j, value, cmp)
  {
    if j > 0 {
      ValuesUnmatched(ns, j - 1, value, cmp);
      ValuesAppend(UnmatchedNodes(ns, j - 1, value, cmp), ns[j - 1]);
    }
  }

  /** A run of `h` leading matches contributes no unmatched node: the rest are those of `N[h..]`. */
  lemma {:induction false} UnmatchedAfterLeading<T>(N: seq<Node<T>>, h: nat, j: nat, value: T, cmp: (T, T) -> int)
    requires h <= |N| && j <= |N|
    requires forall i :: 0 <= i < h ==> cmp(N[i].value, value) == 0
    ensures UnmatchedNodes(N, j, value, cmp) == if j <= h then [] else UnmatchedNodes(N[h..], j - h, value, cmp)
  {
    if j > 0 {
      UnmatchedAfterLeading(N, h, j - 1, value, cmp);
      if j > h {
        assert N[h..][j - 1 - h] == N[j - 1];
      }
    }
  }

  /**
   * The values left by `delete`: the unmatched nodes of `N` hold exactly the
   * values of `C == Values(N)` that do not match.
   */
  lemma UnmatchedValues<T>(N: seq<Node<T>>, C: seq<T>, value: T, cmp: (T, T) -> int)
    requires C == Values(N)
    ensures Values(UnmatchedNodes(N, |N|, value, cmp)) == RemoveEqual(C, value, cmp)
  {
    ValuesUnmatched(N, |N|, value, cmp);
    SurvivorsPrefix(C, |C|, value, cmp);
    assert C[..|C|] == C;
  }

  /**
   * What the splicing loop of `delete` knows about the nodes it has walked:
   * `S[1..j]` are done, `kept` are the survivors among `S[..j]` (at indices
   * `idx`, the last one being `S[c]`), they are exactly the unmatched nodes
   * of `S[..j]` (the first, `S[0]`, does not match), and `deleted` is the last
   * node unlinked so far.
   */
  ghost predicate SpliceTrack<T>(S: seq<Node<T>>, D: seq<T>, kept: seq<Node<T>>, idx: seq<int>, c: int, j: int,
                                 value: T, cmp: (T, T) -> int, deleteNode: Node?<T>, deleted: Node?<T>)
  {
    && 0 <= c < j <= |S| && |D| == |S| - 1 && cmp(S[0].value, value) != 0
    && |idx| == |kept| && idx != [] && idx[0] == 0 && idx[|idx| - 1] == c
    && (forall i :: 0 <= i < |kept| ==> 0 <= idx[i] <= c && kept[i] == S[idx[i]])
    && (forall m :: c < m < j ==> cmp(S[m].value, value) == 0)
    && Distinct(kept)
    && kept == UnmatchedNodes(S, j, value, cmp)
    && deleted == (var k := LastBefore(D, j - 1, value, cmp); if k < 0 then deleteNode else S[k + 1])
  }

  /** Keeping `S[j]`, whose value does not match, extends the survivors by it. */
  lemma KeptStep<T>(S: seq<Node<T>>, D: seq<T>, kept: seq<Node<T>>, idx: seq<int>, c: int, j: int,
                    value: T, cmp: (T, T) -> int, deleteNode: Node?<T>, deleted: Node?<T>)
    requires SpliceTrack(S, D, kept, idx, c, j, value, cmp, deleteNode, deleted)
    requires Distinct(S) && j < |S| && D[j - 1] == S[j].value && cmp(S[j].value, value) != 0
    ensures SpliceTrack(S, D, kept + [S[j]], idx + [j], j, j + 1, value, cmp, deleteNode, deleted)
  {
  }

  /** Unlinking `S[j]`, whose value matches, makes it the last node deleted. */
  lemma DroppedStep<T>(S: seq<Node<T>>, D: seq<T>, kept: seq<Node<T>>, idx: seq<int>, c: int, j: int,
                       value: T, cmp: (T, T) -> int, deleteNode: Node?<T>, deleted: Node?<T>)
    requires SpliceTrack(S, D, kept, idx, c, j, value, cmp, deleteNode, deleted)
    requires j < |S| && D[j - 1] == S[j].value && cmp(S[j].value, value) == 0
    ensures SpliceTrack(S, D, kept, idx, c, j + 1, value, cmp, deleteNode, S[j])
  {
  }

  /**
   * The shape of the chain during the splicing loop: the survivors `kept` are
   * linked in order, the last of them points at `S[j]` (or ends the chain), and
   * the nodes from `S[j]` on are still linked as they were.
   */
  ghost predicate Chained<T>(S: seq<Node<T>>, kept: seq<Node<T>>, j: int)
    reads S, kept
  {
    && kept != [] && 0 <= j <= |S|
    && (forall i :: 0 <= i < |kept| - 1 ==> kept[i].next == kept[i + 1])
    && kept[|kept| - 1].next == (if j < |S| then S[j] else null)
    && (forall i :: j <= i < |S| - 1 ==> S[i].next == S[i + 1])
    && (j < |S| ==> S[|S| - 1].next == null)
  }

  /** The splicing loop's invariant, after `j` nodes of `S` have been walked. */
  ghost predicate Spliced<T>(S: seq<Node<T>>, D: seq<T>, kept: seq<Node<T>>, idx: seq<int>, c: int, j: int,
                             currentNode: Node<T>, value: T, cmp: (T, T) -> int, deleteNode: Node?<T>, deleted: Node?<T>)
    reads S, kept
  {
    && SpliceTrack(S, D, kept, idx, c, j, value, cmp, deleteNode, deleted)
    && currentNode == S[c] == kept[|kept| - 1] && Chained(S, kept, j)
  }

  /** One iteration of the splicing loop: keeps or unlinks the node after `currentNode`. */
  method SpliceStep<T>(currentNode: Node<T>, value: T, cmp: (T, T) -> int, deleteNode: Node?<T>, deleted: Node?<T>,
                       ghost S: seq<Node<T>>, ghost D: seq<T>, ghost kept: seq<Node<T>>, ghost idx: seq<int>,
                       ghost c: int, ghost j: int)
    returns (currentNode': Node<T>, deleted': Node?<T>, ghost kept': seq<Node<T>>, ghost idx': seq<int>, ghost c': int)
    requires S != [] && Distinct(S) && D == Values(S)[1..]
    requires Spliced(S, D, kept, idx, c, j, currentNode, value, cmp, deleteNode, deleted) && currentNode.next != null
    modifies currentNode
    ensures Spliced(S, D, kept', idx', c', j + 1, currentNode', value, cmp, deleteNode, deleted')
  {
    var next := currentNode.next;
    if cmp(next.value, value) == 0 {
      DroppedStep(S, D, kept, idx, c, j, value, cmp, deleteNode, deleted);
      currentNode', deleted', kept', idx', c' := currentNode, next, kept, idx, c;
      currentNode.next := next.next;
    } else {
      KeptStep(S, D, kept, idx, c, j, value, cmp, deleteNode, deleted);
      currentNode', deleted', kept', idx', c' := next, deleted, kept + [next], idx + [j], j;
    }
  }

  /**
   * The outcome of splicing the chain `S`: the survivors `kept` start with
   * `S[0]`, end with `currentNode`, are linked in order and end the chain,
   * come from `S`, include `S`'s last node unless it matched, and are exactly
   * the nodes of `S` whose value does not match, in their order; `deleted` is
   * the last node that matched, or `lead` when none did.
   */
  ghost predicate SplicedOut<T>(S: seq<Node<T>>, kept: seq<Node<T>>, currentNode: Node?<T>, lead: Node?<T>,
                                deleted: Node?<T>, value: T, cmp: (T, T) -> int)
    reads kept
  {
    && S != [] && kept != [] && kept[0] == S[0] && kept[|kept| - 1] == currentNode
    && Linked(kept, null) && Distinct(kept)
    && (forall i :: 0 <= i < |kept| ==> kept[i] in S)
    && (cmp(S[|S| - 1].value, value) != 0 ==> currentNode == S[|S| - 1])
    && kept == UnmatchedNodes(S, |S|, value, cmp)
    && deleted == (var k := LastEqual(Values(S)[1..], value, cmp); if k < 0 then lead else S[k + 1])
  }

  /** Once the whole chain is walked, the survivors are exactly the non-matching nodes, still linked. */
  lemma SpliceDone<T>(S: seq<Node<T>>, kept: seq<Node<T>>, idx: seq<int>, c: int, currentNode: Node<T>,
                      value: T, cmp: (T, T) -> int, deleteNode: Node?<T>, deleted: Node?<T>)
    requires S != [] && Spliced(S, Values(S)[1..], kept, idx, c, |S|, currentNode, value, cmp, deleteNode, deleted)
    ensures SplicedOut(S, kept, currentNode, deleteNode, deleted, value, cmp)
  {
    var D := Values(S)[1..];
    LastBeforePrefix(D, |D|, value, cmp);
    assert D[..|D|] == D;
  }

  /**
   * The splicing loop of `delete`: walking the chain `S` from its first
   * node, unlinks every later node whose value `cmp` finds equal to `value`.
   * Returns the last node kept and the last node unlinked (`deleteNode` when
   * none is).
   */
  method SpliceMatches<T>(first: Node<T>, value: T, cmp: (T, T) -> int, deleteNode: Node?<T>, ghost S: seq<Node<T>>)
    returns (currentNode: Node<T>, deleted: Node?<T>, ghost kept: seq<Node<T>>)
    requires S != [] && S[0] == first && cmp(first.value, value) != 0
    requires Linked(S, null) && Distinct(S)
    modifies S
    ensures SplicedOut(S, kept, currentNode, deleteNode, deleted, value, cmp)
  {
    ghost var idx, c;
    currentNode, deleted, kept, idx, c := SpliceWalk(first, value, cmp, deleteNode, S);
    SpliceDone(S, kept, idx, c, currentNode, value, cmp, deleteNode, deleted);
  }

  /** The loop of `SpliceMatches`, leaving its invariant for the whole chain. */
  method SpliceWalk<T>(first: Node<T>, value: T, cmp: (T, T) -> int, deleteNode: Node?<T>, ghost S: seq<Node<T>>)
    returns (currentNode: Node<T>, deleted: Node?<T>, ghost kept: seq<Node<T>>, ghost idx: seq<int>, ghost c: int)
    requires S != [] && S[0] == first && cmp(first.value, value) != 0
    requires Linked(S, null) && Distinct(S)
    modifies S
    ensures Spliced(S, Values(S)[1..], kept, idx, c, |S|, currentNode, value, cmp, deleteNode, deleted)
  {
    ghost var D := Values(S)[1..];
    currentNode, deleted, kept := first, deleteNode, [first];
    ghost var j;
    c, j, idx := 0, 1, [0];
    while currentNode.next != null
      invariant Spliced(S, D, kept, idx, c, j, currentNode, value, cmp, deleteNode, deleted)
      decreases |S| - j
    {
      currentNode, deleted, kept, idx, c := SpliceStep(currentNode, value, cmp, deleteNode, deleted, S, D, kept, idx, c, j);
      j := j + 1;
    }
  }

  /**
   * What the first loop of `delete` knows after dropping `h` leading nodes of
   * `N`: all of them matched, `hd` is the new head, and `deleted` is the last
   * of them (null when there was none).
   */
  ghost predicate LeadingDropped<T>(N: seq<Node<T>>, h: int, hd: Node?<T>, deleted: Node?<T>, value: T, cmp: (T, T) -> int)
  {
    && 0 <= h <= |N| && hd == (if h < |N| then N[h] else null)
    && (forall i :: 0 <= i < h ==> cmp(N[i].value, value) == 0)
    && deleted == (if h == 0 then null else N[h - 1])
  }

  /**
   * The shape left by `delete`: with `h` leading matches dropped and the rest
   * of the chain spliced (when anything was left), the survivors form a chain
   * from the new head `hd` to the fixed tail `tl`, all of them old nodes.
   */
  lemma DeleteShape<T>(N: seq<Node<T>>, h: int, hd: Node?<T>, lead: Node?<T>, kept: seq<Node<T>>,
                       currentNode: Node?<T>, tl: Node?<T>, deleted: Node?<T>, value: T, cmp: (T, T) -> int)
    requires N != [] && LeadingDropped(N, h, hd, lead, value, cmp)
    requires h == |N| ==> kept == [] && currentNode == null
    requires h < |N| ==> SplicedOut(N[h..], kept, currentNode, lead, deleted, value, cmp)
    requires tl == if cmp(N[|N| - 1].value, value) == 0 then currentNode else N[|N| - 1]
    ensures Chain(kept, hd, tl)
    ensures forall i :: 0 <= i < |kept| ==> kept[i] in N
  {
  }

  /**
   * The survivors of `delete`: with `h` leading matches dropped and the rest
   * spliced, the nodes left are exactly the unmatched nodes of `N` in their
   * order, so they hold the values RemoveEqual keeps.
   */
  lemma DeleteNodes<T>(N: seq<Node<T>>, C: seq<T>, h: int, hd: Node?<T>, lead: Node?<T>, kept: seq<Node<T>>,
                       currentNode: Node?<T>, deleted: Node?<T>, value: T, cmp: (T, T) -> int)
    requires N != [] && C == Values(N) && LeadingDropped(N, h, hd, lead, value, cmp)
    requires h == |N| ==> kept == []
    requires h < |N| ==> SplicedOut(N[h..], kept, currentNode, lead, deleted, value, cmp)
    ensures kept == UnmatchedNodes(N, |N|, value, cmp)
    ensures Values(kept) == RemoveEqual(C, value, cmp)
  {
    UnmatchedAfterLeading(N, h, |N|, value, cmp);
    UnmatchedValues(N, C, value, cmp);
  }

  /** The values after the first `h + 1` nodes of `N`, read two ways. */
  lemma ValuesAfter<T>(N: seq<Node<T>>, h: int)
    requires 0 <= h < |N|
    ensures Values(N[h..])[1..] == Values(N)[h + 1..]
  {
  }

  /**
   * The node reported by `delete`: `deleted` is the node of the last value
   * of `C == Values(N)` that matched, null when none did.
   */
  lemma DeleteReported<T>(N: seq<Node<T>>, C: seq<T>, h: int, hd: Node?<T>, lead: Node?<T>, kept: seq<Node<T>>,
                          currentNode: Node?<T>, deleted: Node?<T>, value: T, cmp: (T, T) -> int)
    requires N != [] && C == Values(N) && LeadingDropped(N, h, hd, lead, value, cmp)
    requires h < |N| ==> cmp(N[h].value, value) != 0
    requires h == |N| ==> deleted == lead
    requires h < |N| ==> SplicedOut(N[h..], kept, currentNode, lead, deleted, value, cmp)
    ensures var k := LastEqual(C, value, cmp);
            deleted == if k < 0 then null else N[k]
  {
    LastOfLeadingMatches(C, h, value, cmp);
    if h < |N| {
      ValuesAfter(N, h);
    }
  }

  /**
   * The state of `deleteTail`'s walk over the chain `N` of at least two
   * nodes: `currentNode` is `N[i]`, every link is intact except possibly the
   * one out of the second-to-last node, which is cut only once the walk has
   * reached it.
   */
  ghost predicate TailWalk<T>(N: seq<Node<T>>, i: int, currentNode: Node<T>)
    reads N
  {
    && 2 <= |N| && 0 <= i <= |N| - 2 && currentNode == N[i] && Distinct(N)
    && (forall k {:trigger N[k]} :: 0 <= k < |N| - 2 ==> N[k].next == N[k + 1])
    && N[|N| - 1].next == null
    && (N[|N| - 2].next == N[|N| - 1] || (N[|N| - 2].next == null && i == |N| - 2))
  }

  /**
   * One step of `deleteTail`'s walk: cuts the link out of `currentNode` when
   * its successor is the last node, and otherwise moves on to the successor.
   */
  method TailStep<T>(currentNode: Node<T>, ghost N: seq<Node<T>>, ghost i: int)
    returns (nextCurrent: Node<T>, ghost nextI: int)
    requires TailWalk(N, i, currentNode) && currentNode.next != null
    modifies currentNode
    ensures TailWalk(N, nextI, nextCurrent)
    ensures nextI == i + 1 || (nextI == i && nextCurrent.next == null)
  {
    assert currentNode.next == N[i + 1];
    assert i + 1 < |N| - 2 ==> N[i + 1].next == N[i + 2];
    if currentNode.next.next == null {
      currentNode.next := null;
      nextCurrent, nextI := currentNode, i;
    } else {
      nextCurrent, nextI := currentNode.next, i + 1;
    }
  }

  /** When the walk stops, the nodes before the last form a chain from the head to the second-to-last node. */
  lemma TailCut<T>(N: seq<Node<T>>, i: int, currentNode: Node<T>)
    requires TailWalk(N, i, currentNode) && currentNode.next == null
    ensures Chain(N[..|N| - 1], N[0], currentNode)
    ensures currentNode == N[|N| - 2]
    ensures Values(N[..|N| - 1]) == Values(N)[..|N| - 1]
  {
    assert forall k :: 0 <= k < |N| - 2 ==> N[k].next != null;
    var P := N[..|N| - 1];
    assert forall k :: 0 <= k < |P| - 1 ==> P[k].next == P[k + 1];
  }

  /**
   * The state of `reverse`'s walk over the chain `N` after `i` steps: the
   * first `i` nodes point backwards (the first one to null), the rest still
   * point forwards, `prevNode` is the last node turned and `currentNode` the
   * next one to turn.
   */
  ghost predicate Reversing<T>(N: seq<Node<T>>, i: int, prevNode: Node?<T>, currentNode: Node?<T>)
    reads N
  {
    && 0 <= i <= |N| && Distinct(N)
    && prevNode == (if i == 0 then null else N[i - 1])
    && currentNode == (if i < |N| then N[i] else null)
    && (i > 0 ==> N[0].next == null)
    && (forall k :: 0 < k < i ==> N[k].next == N[k - 1])
    && (forall k :: i <= k < |N| - 1 ==> N[k].next == N[k + 1])
    && (i < |N| ==> N[|N| - 1].next == null)
  }

  /** Once every link of `N` is turned, the reversed nodes form a chain from the old tail to the old head. */
  lemma ReversedChain<T>(N: seq<Node<T>>, prevNode: Node?<T>)
    requires Reversing(N, |N|, prevNode, null)
    ensures Chain(Reversed(N), prevNode, if N == [] then null else N[0])
  {
    var R := Reversed(N);
    forall k | 0 <= k < |R| - 1
      ensures R[k].next == R[k + 1]
    {
      assert R[k] == N[|N| - 1 - k] && R[k + 1] == N[|N| - 1 - (k + 1)];
    }
    if N != [] {
      assert R[|R| - 1] == N[0];
    }
  }

  /** The values of the reversed nodes are the reversed values. */
  lemma ValuesReversed<T>(N: seq<Node<T>>)
    ensures Values(Reversed(N)) == Reversed(Values(N))
  {
    var R := Reversed(N);
    forall k | 0 <= k < |R|
      ensures Values(R)[k] == Reversed(Values(N))[k]
    {
      assert R[k] == N[|N| - 1 - k];
    }
  }

  /**
   * One step of `reverse`: turns the link of `currentNode` back to
   * `prevNode` and returns the node it used to link to.
   */
  method TurnLink<T>(prevNode: Node?<T>, currentNode: Node<T>, ghost N: seq<Node<T>>, ghost i: int)
    returns (nextNode: Node?<T>)
    requires Reversing(N, i, prevNode, currentNode)
    modifies currentNode
    ensures Reversing(N, i + 1, currentNode, nextNode)
  {
    assert i < |N| && N[i] == currentNode;
    nextNode := currentNode.next;
    currentNode.next := prevNode;
  }

  class LinkedList<T> {
    var head: Node?<T>
    var tail: Node?<T>
    const compare: Comparator.Compare<T>

    /** The nodes of the chain, from head to tail. */
    ghost var nodes: seq<Node<T>>
    /** The values held by the list, from head to tail. */
    ghost var contents: seq<T>

    /**
     * The representation invariant: `nodes` are distinct and linked in order,
     * `head` and `tail` are the first and last of them (both null when there
     * are none), the last one has no successor, and `contents` are their values.
     */
    ghost predicate Valid()
      reads this, nodes
      ensures Valid() ==> (head == null <==> tail == null)
      ensures Valid() && tail != null ==> tail.next == null
    {
      Chain(nodes, head, tail) && contents == Values(nodes)
    }

    constructor (compareFunction: (T, T) -> int)
      ensures Valid() && fresh(compare)
      ensures head == null && tail == null && contents == []
      ensures compare.compare == compareFunction
    {
      head := null;
      tail := null;
      compare := new Comparator.Compare(compareFunction);
      nodes := [];
      contents := [];
    }

    /** Adds a node holding `value` in front of the head. */
    method Prepend(value: T)
      requires Valid()
      modifies this
      ensures Valid()
      ensures contents == [value] + old(contents)
      ensures fresh(head) && nodes == [head] + old(nodes)
      ensures old(tail) == null ==> tail == head
      ensures old(tail) != null ==> tail == old(tail)
    {
      var newNode := new Node(value, head);
      head := newNode;
      if tail == null {
        tail := newNode;
      }
      nodes := [newNode] + nodes;
      contents := [value] + contents;
    }

    /** Adds a node holding `value` after the tail. */
    method Append(value: T)
      requires Valid()
      modifies this, nodes
      ensures Valid()
      ensures contents == old(contents) + [value]
      ensures fresh(tail) && nodes == old(nodes) + [tail]
      ensures old(head) == null ==> head == tail
      ensures old(head) != null ==> head == old(head)
    {
      var newNode := new Node(value);
      if head == null {
        head := newNode;
        tail := newNode;
        nodes := [newNode];
        contents := [value];
        return;
      }
      tail.next := newNode;
      tail := newNode;
      nodes := nodes + [newNode];
      contents := contents + [value];
    }

    /**
     * The first loop of `delete`: moves `head` past every leading node whose
     * value matches, leaving the nodes themselves alone. Returns the last node
     * passed (null when none) and how many were passed.
     */
    method DropLeadingMatches(value: T) returns (deleteNode: Node?<T>, ghost h: int)
      requires Valid()
      modifies this`head
      ensures LeadingDropped(nodes, h, head, deleteNode, value, compare.compare)
      ensures h < |nodes| ==> compare.compare(nodes[h].value, value) != 0
    {
      deleteNode, h := null, 0;
      while head != null && compare.Equal(head.value, value)
        invariant LeadingDropped(nodes, h, head, deleteNode, value, compare.compare)
        decreases |nodes| - h
      {
        deleteNode := head;
        head := head.next;
        h := h + 1;
      }
    }

    /**
     * The end of `delete`: when the old tail matched, the last survivor (or
     * null) becomes the tail; the survivors become the list.
     */
    method FixTail(ghost N: seq<Node<T>>, ghost C: seq<T>, ghost h: int, ghost lead: Node?<T>,
                   currentNode: Node?<T>, deleted: Node?<T>, ghost kept: seq<Node<T>>, value: T)
      requires N != [] && C == Values(N) && tail == N[|N| - 1]
      requires LeadingDropped(N, h, head, lead, value, compare.compare)
      requires h < |N| ==> compare.compare(N[h].value, value) != 0
      requires h == |N| ==> kept == [] && currentNode == null && deleted == lead
      requires h < |N| ==> SplicedOut(N[h..], kept, currentNode, lead, deleted, value, compare.compare)
      modifies this`tail, this`nodes, this`contents
      ensures Valid()
      ensures nodes == UnmatchedNodes(N, |N|, value, compare.compare)
      ensures contents == RemoveEqual(C, value, compare.compare)
      ensures forall i :: 0 <= i < |nodes| ==> nodes[i] in N
      ensures var k := LastEqual(C, value, compare.compare);
              deleted == if k < 0 then null else N[k]
    {
      ghost var cmp := compare.compare;
      ghost var newTail := if cmp(N[|N| - 1].value, value) == 0 then currentNode else tail;
      DeleteShape(N, h, head, lead, kept, currentNode, newTail, deleted, value, cmp);
      DeleteNodes(N, C, h, head, lead, kept, currentNode, deleted, value, cmp);
      DeleteReported(N, C, h, head, lead, kept, currentNode, deleted, value, cmp);
      if compare.Equal(tail.value, value) {
        tail := currentNode;
      }
      nodes, contents := kept, Values(kept);
    }

    /**
     * Unlinks every node whose value the comparator finds equal to `value`,
     * first from the front, then after the new head, and fixes the tail.
     * Returns the last node unlinked, or null when none matched.
     */
    method Delete(value: T) returns (deleteNode: Node?<T>)
      requires Valid()
      modifies this`head, this`tail, this`nodes, this`contents, nodes
      ensures Valid()
      ensures nodes == UnmatchedNodes(old(nodes), |old(nodes)|, value, compare.compare)
      ensures contents == RemoveEqual(old(contents), value, compare.compare)
      ensures forall i :: 0 <= i < |nodes| ==> nodes[i] in old(nodes)
      ensures var k := LastEqual(old(contents), value, compare.compare);
              deleteNode == if k < 0 then null else old(nodes)[k]
    {
      if head == null {
        return null;
      }
      ghost var N, C, h := nodes, contents, 0;
      deleteNode, h := DropLeadingMatches(value);
      var currentNode := head;
      ghost var kept: seq<Node<T>> := [];
      ghost var lead := deleteNode;
      if currentNode != null {
        currentNode, deleteNode, kept := SpliceMatches(currentNode, value, compare.compare, deleteNode, N[h..]);
      }
      FixTail(N, C, h, lead, currentNode, deleteNode, kept, value);
    }
    /**
     * The first node whose value satisfies `callback` or equals `value`
     * under the comparator; null when there is none.
     */
    method Find(value: Option<T>, callback: Option<T -> bool>) returns (found: Node?<T>)
      requires Valid()
      ensures var k := FirstMatch(contents, value, callback, compare.compare);
              found == if k < 0 then null else nodes[k]
    {
      if head == null {
        return null;
      }
      var currentNode := head;
      ghost var i := 0;
      while currentNode != null
        invariant 0 <= i <= |nodes| && currentNode == (if i < |nodes| then nodes[i] else null)
        invariant forall m :: 0 <= m < i ==> !Matches(contents[m], value, callback, compare.compare)
        decreases |nodes| - i
      {
        if callback.Some? && callback.value(currentNode.value) {
          assert Matches(contents[i], value, callback, compare.compare);
          return currentNode;
        }
        if value.Some? && compare.Equal(currentNode.value, value.value) {
          assert Matches(contents[i], value, callback, compare.compare);
          return currentNode;
        }
        currentNode := currentNode.next;
        i := i + 1;
      }
      return null;
    }

    /**
     * Unlinks the last node and returns it (null on an empty list). The walk
     * stops at the second-to-last node, cuts its link and makes it the tail.
     */
    method DeleteTail() returns (deleted: Node?<T>)
      requires Valid()
      modifies this`head, this`tail, this`nodes, this`contents, nodes
      ensures Valid()
      ensures deleted == old(tail)
      ensures old(nodes) == [] ==> nodes == [] && contents == []
      ensures old(nodes) != [] ==> nodes == old(nodes)[..|old(nodes)| - 1]
      ensures old(nodes) != [] ==> contents == old(contents)[..|old(contents)| - 1]
      ensures |old(nodes)| >= 2 ==> tail == old(nodes)[|old(nodes)| - 2]
      ensures deleted != null ==> deleted.next == null
    {
      deleted := tail;
      if head == tail {
        head, tail := null, null;
        nodes, contents := [], [];
        return;
      }
      ghost var N, C := nodes, contents;
      var currentNode: Node<T> := head;
      ghost var i := 0;
      while currentNode.next != null
        invariant TailWalk(N, i, currentNode)
        modifies N
        decreases |N| - i + (if currentNode.next == null then 0 else 1)
      {
        currentNode, i := TailStep(currentNode, N, i);
      }
      DropLast(N, C, i, currentNode);
    }

    /**
     * The end of `deleteTail`: the node where the walk stopped, now without
     * a successor, becomes the tail, and the last node leaves the list.
     */
    method DropLast(ghost N: seq<Node<T>>, ghost C: seq<T>, ghost i: int, currentNode: Node<T>)
      requires TailWalk(N, i, currentNode) && currentNode.next == null
      requires head == N[0] && C == Values(N)
      modifies this`tail, this`nodes, this`contents
      ensures Valid()
      ensures nodes == N[..|N| - 1] && contents == C[..|C| - 1]
      ensures tail == N[|N| - 2] && N[|N| - 1].next == null
    {
      TailCut(N, i, currentNode);
      tail := currentNode;
      nodes, contents := N[..|N| - 1], C[..|C| - 1];
    }

    /**
     * Unlinks the first node and returns it (null on an empty list). The
     * returned node keeps its link to the new head.
     */
    method DeleteHead() returns (deleted: Node?<T>)
      requires Valid()
      modifies this`head, this`tail, this`nodes, this`contents
      ensures Valid()
      ensures deleted == old(head)
      ensures old(nodes) == [] ==> nodes == [] && contents == []
      ensures old(nodes) != [] ==> nodes == old(nodes)[1..] && contents == old(contents)[1..]
      ensures deleted != null ==> deleted.next == head
    {
      if head == null {
        return null;
      }
      deleted := head;
      if head.next != null {
        head := head.next;
      } else {
        head, tail := null, null;
      }
      nodes, contents := nodes[1..], contents[1..];
    }

    /** Appends every one of `values`, in order. */
    method FromArray(values: seq<T>)
      requires Valid()
      modifies this, nodes
      ensures Valid()
      ensures contents == old(contents) + values
      ensures |nodes| == |old(nodes)| + |values| && nodes[..|old(nodes)|] == old(nodes)
      ensures forall k :: |old(nodes)| <= k < |nodes| ==> fresh(nodes[k])
    {
      for i := 0 to |values|
        invariant Valid()
        invariant contents == old(contents) + values[..i]
        invariant |nodes| == |old(nodes)| + i && nodes[..|old(nodes)|] == old(nodes)
        invariant forall k :: |old(nodes)| <= k < |nodes| ==> fresh(nodes[k])
      {
        Append(values[i]);
      }
    }

    /** The nodes of the list, from head to tail, as a new sequence. */
    method ToArray() returns (arr: seq<Node<T>>)
      requires Valid()
      ensures arr == nodes
      ensures Values(arr) == contents
    {
      arr := [];
      var currentNode := head;
      while currentNode != null
        invariant |arr| <= |nodes| && arr == nodes[..|arr|]
        invariant currentNode == if |arr| < |nodes| then nodes[|arr|] else null
        decreases |nodes| - |arr|
      {
        arr := arr + [currentNode];
        currentNode := currentNode.next;
      }
    }

    /**
     * Turns every link around, walking from the head with the previous and
     * the current node, then swaps head and tail.
     */
    method Reverse()
      requires Valid()
      modifies this`head, this`tail, this`nodes, this`contents, nodes
      ensures Valid()
      ensures nodes == Reversed(old(nodes)) && contents == Reversed(old(contents))
      ensures head == old(tail) && tail == old(head)
    {
      ghost var N := nodes;
      var currentNode := head;
      var prevNode: Node?<T> := null;
      var nextNode: Node?<T> := null;
      ghost var i := 0;
      while currentNode != null
        invariant Reversing(N, i, prevNode, currentNode)
        modifies N
        decreases |N| - i
      {
        nextNode := TurnLink(prevNode, currentNode, N, i);
        prevNode := currentNode;
        currentNode := nextNode;
        i := i + 1;
      }
      SwapEnds(N, prevNode);
    }

    /** The end of `reverse`: with every link turned, the old head becomes the tail and `prevNode` the head. */
    method SwapEnds(ghost N: seq<Node<T>>, prevNode: Node?<T>)
      requires Reversing(N, |N|, prevNode, null)
      requires head == (if N == [] then null else N[0]) && contents == Values(N)
      modifies this`head, this`tail, this`nodes, this`contents
      ensures Valid()
      ensures nodes == Reversed(N) && contents == Reversed(old(contents))
      ensures head == prevNode && tail == old(head)
    {
      ReversedChain(N, prevNode);
      ValuesReversed(N);
      tail := head;
      head := prevNode;
      nodes, contents := Reversed(N), Reversed(contents);
    }
  }

  /** `fromArray` on a new list followed by `toArray` gives back nodes holding exactly `values`, in order. */
  method FromArrayToArray<T>(values: seq<T>, compareFunction: (T, T) -> int) returns (arr: seq<Node<T>>)
    ensures Values(arr) == values
    ensures Distinct(arr)
  {
    var list := new LinkedList(compareFunction);
    list.FromArray(values);
    arr := list.ToArray();
  }

  /** Deleting a value that every element matches empties the list, clearing both `head` and `tail`. */
  method DeleteAll<T>(list: LinkedList<T>, value: T) returns (deleteNode: Node?<T>)
    requires list.Valid()
    requires forall i :: 0 <= i < |list.contents| ==> list.compare.Equal(list.contents[i], value)
    modifies list`head, list`tail, list`nodes, list`contents, list.nodes
    ensures list.Valid() && list.contents == []
    ensures list.head == null && list.tail == null
    ensures deleteNode == if old(list.nodes) == [] then null else old(list.tail)
  {
    ghost var C := list.contents;
    RemoveEqualAllMatch(C, value, list.compare.compare);
    deleteNode := list.Delete(value);
  }

  /** Reversing twice restores the list: the same nodes in the same order, the same head and tail. */
  method ReverseTwice<T>(list: LinkedList<T>)
    requires list.Valid()
    modifies list`head, list`tail, list`nodes, list`contents, list.nodes
    ensures list.Valid()
    ensures list.nodes == old(list.nodes) && list.contents == old(list.contents)
    ensures list.head == old(list.head) && list.tail == old(list.tail)
  {
    ghost var N, C := list.nodes, list.contents;
    list.Reverse();
    assert forall k :: 0 <= k < |list.nodes| ==> list.nodes[k] == N[|N| - 1 - k];
    list.Reverse();
    ReversedTwice(N);
    ReversedTwice(C);
  }
}
