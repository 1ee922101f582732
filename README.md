# Linked list, comparator and stack

A Dafny model of three small in-memory data structures from a JavaScript
algorithms library, with the properties their code promises proved about it.

- **Comparator** (`Comparator.dfy`, module `Comparator`). A class `Compare`
  wraps a three-way compare function. `equal`, `lessThan`, `greaterThan`,
  `lessThanOrEqual` and `greaterThanOrEqual` are derived from it.
  `reverse()` swaps its arguments in place. The default natural ordering
  is `DefaultCompare`.
- **Singly linked list** (`LinkedList.dfy`, module `LinkedList`). A class
  `Node` holds a `value` and a mutable `next`. A class `LinkedList` has
  `head`, `tail` and a comparator, plus two ghost fields:
  - `nodes`: the chain from `head` to `tail`;
  - `contents`: the values of those nodes.

  `Valid()` is the representation invariant:
  - the nodes are distinct and each links to the next;
  - `head` and `tail` are the first and last node, or both null;
  - the tail has no successor.

  Every operation rewrites `head`, `tail` and `next` pointers in place, as
  the JavaScript does. Each is proved to keep `Valid()` and is specified
  against `contents`:
  - `prepend`, `append`, `delete` (all matches), `deleteHead`,
    `deleteTail`;
  - `find` (by value or by callback);
  - `fromArray`, `toArray`, `reverse`.

  `delete` is also specified on the nodes themselves. The list keeps
  exactly `UnmatchedNodes` of its old nodes: those whose value does not
  match, in their old order.
- **Value-level specifications** (`SeqSpec.dfy`, module `SeqSpec`). These
  functions say what `delete`, `find` and `reverse` do to the sequence of
  values:
  - `RemoveEqual` and `LastEqual` for `delete`;
  - `FirstMatch` for `find`;
  - `Reversed` for `reverse`.

  Lemmas about them include the following:
  - exactly the non-matching values survive;
  - deleting twice is deleting once;
  - reversing twice is the identity;
  - after a delete, a find for that value finds nothing.
- **Stack** (`Stack.dfy`, module `Stack`). A class `Stack` is backed by a
  sequence whose last element is the top. It has `push`, `pop`, `peek`,
  `getSize` and `clear`. A client proves that pushing a sequence and then
  popping everything returns it reversed.
- `Wrappers.dfy` defines `Option`. `None` stands for JavaScript's
  `undefined` result and for an absent optional argument.

The long loop methods are split into a loop, a step and a finishing part:
- `delete` becomes `DropLeadingMatches`, `SpliceMatches` and `FixTail`;
- `deleteTail` uses `TailStep` and `DropLast`;
- `reverse` uses `TurnLink` and `SwapEnds`.

Each piece carries its loop state in one predicate (`LeadingDropped`,
`Spliced`, `TailWalk`, `Reversing`). Each piece does exactly what the
corresponding lines of the JavaScript do, and in the same order.

## Model

| member | source | states |
|---|---|---|
| Comparator.DefaultCompare | src/utils/comparator/Comparator.js:18-24 | The default result is always -1, 0 or 1. It is 0 exactly when the arguments are equal, -1 exactly when the first is smaller and 1 exactly when it is larger. |
| Comparator.DefaultCompareAntisymmetric | src/utils/comparator/Comparator.js:18-24 | Swapping the arguments of the default compare negates its result, so the default equality is symmetric. |
| Comparator.Compare.constructor | src/utils/comparator/Comparator.js:8-10 | The new comparator wraps exactly the given compare function. |
| Comparator.NewIntCompare | src/utils/comparator/Comparator.js:8-10 | The comparator uses the supplied function when one is given and the default natural ordering otherwise. |
| Comparator.Compare.Equal | src/utils/comparator/Comparator.js:32-34 | equal holds exactly when neither lessThan nor greaterThan holds. |
| Comparator.Compare.LessThan | src/utils/comparator/Comparator.js:42-44 | lessThan implies that compare(a, b) is not 0 and that greaterThan does not hold. |
| Comparator.Compare.GreaterThan | src/utils/comparator/Comparator.js:52-54 | greaterThan implies that compare(a, b) is not 0, so equal does not hold. |
| Comparator.Compare.LessThanOrEqual | src/utils/comparator/Comparator.js:62-64 | lessThanOrEqual holds exactly when compare(a, b) <= 0, which is exactly when greaterThan does not hold. |
| Comparator.Compare.GreaterThanOrEqual | src/utils/comparator/Comparator.js:72-74 | greaterThanOrEqual holds exactly when compare(a, b) >= 0, which is exactly when lessThan does not hold. |
| Comparator.Compare.Trichotomy | src/utils/comparator/Comparator.js:32-54 | For any compare function and any pair, exactly one of lessThan, equal and greaterThan holds. |
| Comparator.DefaultOrdering | src/utils/comparator/Comparator.js:18-74 | Under the default compare, the five predicates coincide with <, ==, >, <= and >= on integers. |
| Comparator.Compare.Reverse | src/utils/comparator/Comparator.js:79-82 | Afterwards compare(a, b) is the old compare(b, a). lessThan, greaterThan and equal on (a, b) give the old answers on (b, a). |
| Comparator.ReverseTwice | src/utils/comparator/Comparator.js:79-82 | Two reversals restore compare, equal, lessThan and greaterThan on every pair. |
| Comparator.ReverseKeepsDefaultEquality | src/utils/comparator/Comparator.js:79-82 | Under the default compare, one reversal leaves equal unchanged and turns lessThan into the old greaterThan. |
| SeqSpec.RemoveEqual | src/data-structures/linked-list/LinkedList.js:62-95 | Defines the values that delete keeps, in their original order. The result is never longer than the input. |
| SeqSpec.RemoveEqualMembers | src/data-structures/linked-list/LinkedList.js:62-95 | Every surviving value is an input value that does not match. Every input value that does not match survives. |
| SeqSpec.RemoveEqualAppend | src/data-structures/linked-list/LinkedList.js:77-87 | Removing matches from a concatenation removes them from each part separately. |
| SeqSpec.RemoveEqualIdempotent | src/data-structures/linked-list/LinkedList.js:62-95 | Deleting a value a second time changes nothing. |
| SeqSpec.RemoveEqualNoMatch | src/data-structures/linked-list/LinkedList.js:62-95 | When no value matches, every value is kept. |
| SeqSpec.RemoveEqualAllMatch | src/data-structures/linked-list/LinkedList.js:62-95 | When every value matches, nothing is kept. |
| SeqSpec.RemoveEqualExtend | src/data-structures/linked-list/LinkedList.js:79-86 | Adding one value to a prefix adds it to the survivors exactly when it does not match. |
| SeqSpec.LastEqual | src/data-structures/linked-list/LinkedList.js:62-95 | Gives the index of the last matching value, the node delete returns. No later value matches. It is -1 exactly when nothing matches. |
| SeqSpec.LastEqualExtend | src/data-structures/linked-list/LinkedList.js:79-86 | A matching value added to a prefix becomes the last match. Otherwise the last match is unchanged. |
| SeqSpec.LastEqualAppend | src/data-structures/linked-list/LinkedList.js:62-95 | The last match of a concatenation lies in the second part when that part has one, and otherwise in the first. |
| SeqSpec.RemoveLeadingMatches | src/data-structures/linked-list/LinkedList.js:70-73 | Once the first loop has skipped a run of leading matches, the survivors are the first non-match followed by the survivors of the rest, or nothing when all matched. |
| SeqSpec.LastOfLeadingMatches | src/data-structures/linked-list/LinkedList.js:70-73 | After such a leading run, the last match lies in the rest when the rest has one, and is otherwise the last node of the run. |
| SeqSpec.SurvivorsPrefix | src/data-structures/linked-list/LinkedList.js:79-86 | After the splice loop has passed j values, the values it kept are exactly the survivors of those j values. |
| SeqSpec.LastBeforePrefix | src/data-structures/linked-list/LinkedList.js:79-86 | After j values, the node the splice loop last unlinked is the last match among those j values. |
| SeqSpec.Matches | src/data-structures/linked-list/LinkedList.js:110-117 | The per-node test of find. A callback that accepts the value is enough, and so is a given value that compares equal. With neither criterion given, nothing matches. |
| SeqSpec.FirstMatch | src/data-structures/linked-list/LinkedList.js:103-124 | Gives the index of the first value that satisfies the callback or equals the searched value. No earlier value does. It is -1 exactly when no value does. |
| SeqSpec.NoCriterionNoMatch | src/data-structures/linked-list/LinkedList.js:103-124 | With neither a value nor a callback, nothing is found. |
| SeqSpec.FindAfterRemove | src/data-structures/linked-list/LinkedList.js:62-124 | After every match of v is deleted, a find for v finds nothing. |
| SeqSpec.Reversed | src/data-structures/linked-list/LinkedList.js:219-241 | The result has the same length as the input and holds its values last-first. |
| SeqSpec.ReversedTwice | src/data-structures/linked-list/LinkedList.js:219-241 | Reversing twice gives back the original sequence. |
| LinkedList.Node.constructor | src/data-structures/linked-list/LinkedList.js:24 | A node holds the given value and links to the given next node, which defaults to null. |
| LinkedList.LinkedList.Valid | src/data-structures/linked-list/LinkedList.js:9-16 | The invariant implies that head is null exactly when tail is null, and that the tail has no successor. |
| LinkedList.LinkedList.constructor | src/data-structures/linked-list/LinkedList.js:9-16 | Creates a valid empty list whose comparator wraps the given compare function. |
| LinkedList.LinkedList.Prepend | src/data-structures/linked-list/LinkedList.js:23-33 | The contents become [value] + old contents, with a fresh head. An empty list also gets the new node as tail. Otherwise the tail is unchanged. |
| LinkedList.LinkedList.Append | src/data-structures/linked-list/LinkedList.js:40-55 | The contents become old contents + [value]. The fresh node is the tail and has no successor. An empty list also gets it as head. Otherwise the head is unchanged. |
| LinkedList.LinkedList.DropLeadingMatches | src/data-structures/linked-list/LinkedList.js:70-73 | head moves past the longest run of leading matches. The last node passed is returned, null when none. The node it stops at does not match. |
| LinkedList.SpliceMatches | src/data-structures/linked-list/LinkedList.js:75-87 | Starting from a node that does not match, the surviving nodes are exactly the chain's unmatched nodes in their original order. They are linked in that order and the last has no successor. The cursor ends on the last survivor, and on the old last node if that did not match. The returned node is the last match, if any. |
| LinkedList.SpliceWalk | src/data-structures/linked-list/LinkedList.js:79-86 | The splice loop keeps its state predicate until the chain ends. |
| LinkedList.SpliceStep | src/data-structures/linked-list/LinkedList.js:80-85 | One step unlinks a matching successor, which is then the last node deleted, or advances past a non-match. Either way the loop state is kept. |
| LinkedList.KeptStep | src/data-structures/linked-list/LinkedList.js:84-85 | Advancing past a non-matching node appends it to the kept nodes, which remain the unmatched nodes seen so far. |
| LinkedList.DroppedStep | src/data-structures/linked-list/LinkedList.js:80-82 | Unlinking a matching node leaves the survivors alone and records that node as deleted. |
| LinkedList.SpliceDone | src/data-structures/linked-list/LinkedList.js:77-87 | When the splice loop ends, its state gives the outcome: the kept nodes are the unmatched nodes of the chain, and the deleted node is the one at LastEqual. |
| LinkedList.DeleteShape | src/data-structures/linked-list/LinkedList.js:90-92 | With the tail reset to the last survivor when the old tail matched, the survivors form a valid chain from the new head to the new tail. |
| LinkedList.UnmatchedMembers | src/data-structures/linked-list/LinkedList.js:62-95 | The unmatched nodes among the first j are old nodes whose value does not match. Every such node is among them. |
| LinkedList.ValuesUnmatched | src/data-structures/linked-list/LinkedList.js:79-86 | The values of the unmatched nodes among the first j are the survivors of the first j values. |
| LinkedList.UnmatchedAfterLeading | src/data-structures/linked-list/LinkedList.js:70-73 | A run of h leading matches contributes no unmatched node. The unmatched nodes of the whole chain are those after the run. |
| LinkedList.UnmatchedValues | src/data-structures/linked-list/LinkedList.js:62-95 | The unmatched nodes of a chain hold exactly RemoveEqual of its values. |
| LinkedList.DeleteNodes | src/data-structures/linked-list/LinkedList.js:62-95 | The survivors of the two loops are exactly the unmatched old nodes, in order, and hold RemoveEqual of the old contents. |
| LinkedList.DeleteReported | src/data-structures/linked-list/LinkedList.js:62-95 | The node the two loops report is the node of the last matching value, or null when nothing matched. |
| LinkedList.LinkedList.FixTail | src/data-structures/linked-list/LinkedList.js:90-92 | The tail becomes the last survivor when the old tail matched. The list is then valid. Its nodes are the unmatched old nodes in their old order, and it holds RemoveEqual of the old contents. |
| LinkedList.LinkedList.Delete | src/data-structures/linked-list/LinkedList.js:62-95 | The list's nodes become exactly the old nodes whose value the comparator does not call equal, in their old order, so the contents become RemoveEqual of the old contents. The list stays valid, and tail is the last survivor. The result is the node of the last match, or null when nothing matched or the list was empty. |
| LinkedList.DeleteAll | src/data-structures/linked-list/LinkedList.js:62-95 | Deleting a value that every element matches leaves head and tail both null and returns the old tail. |
| LinkedList.LinkedList.Find | src/data-structures/linked-list/LinkedList.js:103-124 | Returns the node at FirstMatch of the contents: the first node satisfying the callback or equal to the value. Returns null when there is none, and changes nothing. |
| LinkedList.TailStep | src/data-structures/linked-list/LinkedList.js:143-149 | One step either cuts the link out of the second-to-last node or advances. The walk state is kept and the measure decreases. |
| LinkedList.TailCut | src/data-structures/linked-list/LinkedList.js:143-151 | When the walk stops, it is at the second-to-last node. The nodes before the last form a valid chain ending there. |
| LinkedList.LinkedList.DropLast | src/data-structures/linked-list/LinkedList.js:151-153 | The node where the walk stopped becomes the tail. The list loses exactly its last node and value, and that node still has no successor. |
| LinkedList.LinkedList.DeleteTail | src/data-structures/linked-list/LinkedList.js:130-154 | Returns the old tail, whose next stays null, and keeps the list valid. The contents lose their last value, and the former second-to-last node becomes the tail. An empty or single-node list becomes empty. |
| LinkedList.LinkedList.DeleteHead | src/data-structures/linked-list/LinkedList.js:160-175 | Returns the old head, or null when empty. The list stays valid and the contents become old[1..]. A single node leaves head and tail null. The removed node keeps its link to the new head. |
| LinkedList.LinkedList.FromArray | src/data-structures/linked-list/LinkedList.js:182-186 | The contents become old contents + values. The old nodes are kept in front and fresh nodes follow. |
| LinkedList.LinkedList.ToArray | src/data-structures/linked-list/LinkedList.js:192-202 | Returns exactly the nodes from head to tail, so their values are the contents. The list is not modified. |
| LinkedList.FromArrayToArray | src/data-structures/linked-list/LinkedList.js:182-202 | fromArray on a new list followed by toArray yields distinct nodes whose values are exactly the given values, in order. |
| LinkedList.TurnLink | src/data-structures/linked-list/LinkedList.js:226-233 | One step turns the current node's link back to the previous node and returns its old successor. The first i+1 nodes then point backwards. |
| LinkedList.ReversedChain | src/data-structures/linked-list/LinkedList.js:224-238 | With every link turned, the reversed nodes form a valid chain from the old tail to the old head. |
| LinkedList.ValuesReversed | src/data-structures/linked-list/LinkedList.js:219-241 | The values of the reversed nodes are the reversed values. |
| LinkedList.LinkedList.SwapEnds | src/data-structures/linked-list/LinkedList.js:237-238 | The old head becomes the tail and the last node turned becomes the head. The list is valid with reversed nodes and contents. |
| LinkedList.LinkedList.Reverse | src/data-structures/linked-list/LinkedList.js:219-241 | Reverses the node order and the contents in place, keeps the list valid and swaps head and tail. |
| LinkedList.ReverseTwice | src/data-structures/linked-list/LinkedList.js:219-241 | Reversing twice restores the same nodes, contents, head and tail. |
| Stack.Stack.constructor | src/data-structures/stack/Stack.js:3-5 | A new stack is empty. |
| Stack.Stack.Push | src/data-structures/stack/Stack.js:7-9 | Appends the item at the top and grows the size by one. The earlier elements are unchanged. |
| Stack.Stack.Pop | src/data-structures/stack/Stack.js:11-13 | A non-empty stack returns and removes its top element. An empty stack returns None and stays empty. |
| Stack.Stack.GetSize | src/data-structures/stack/Stack.js:15-17 | The size is the number of stored elements, and it is 0 exactly when the stack is empty. |
| Stack.Stack.Peek | src/data-structures/stack/Stack.js:19-21 | Returns the top element, one of the stored elements, without changing anything. It is None exactly when the size is 0. |
| Stack.Stack.Clear | src/data-structures/stack/Stack.js:23-25 | The stack becomes empty, with size 0. |
| Stack.PushThenPop | src/data-structures/stack/Stack.js:7-13 | push(x) followed by pop() returns x and restores the previous contents. |
| Stack.PushAllPopAll | src/data-structures/stack/Stack.js:7-13 | Pushing a sequence and then popping until empty yields that sequence reversed: last in, first out. |

## Left out

- The node file that `LinkedList.js` imports is not part of this model. `Node` has only the constructor used at lines 24 and 41. Its `value` is a constant because the list never reassigns it. `LinkedListNode.toString` is not modelled.
- `LinkedList.toString` (lines 209-213) is left out. It renders nodes through the node file's `toString` and JavaScript's array-to-string conversion. `ToArray` specifies the same nodes and values without the rendering.
- `prepend`, `append`, `fromArray` and `reverse` return `this` for chaining. The model's methods return nothing, since the list itself is the only result.
- Comparator.DefaultCompare: the JavaScript default compares any values with `===` and `<`. The model defines it over integers, because Dafny has no ordering common to all types. Other element types always receive an explicit compare function.
- JavaScript's `undefined` is modelled as `None`, both as the result of `pop` and `peek` on an empty stack and as an absent argument to `find`. The `===` comparison of `head` and `tail` in `deleteTail` is object identity in the model.
- Compare functions and `find` callbacks are treated as pure, total functions. Side effects or a compare function that is not an ordering are not modelled.
- LinkedList.LinkedList.Delete: the `next` pointers left in unlinked nodes are not stated. The contract speaks only of the nodes that stay in the list and of the node returned.
- The splice loop of `delete` calls `this.compare.equal` on each node. The model passes the comparator's function `compare.compare` to the splice helpers and tests it against 0, which is the same test.
- Stack.Stack.Clear: the JavaScript empties the same array object in place with `length = 0`. The model assigns an empty sequence to the field. Other holders of that array, whose view would also change, are not modelled.
