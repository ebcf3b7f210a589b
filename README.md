# Linked lists and stacks of the `algo` Go repository, in Dafny

This project models two packages of the `algo` repository and proves properties of the model.

The `linkedlist` package has a singly linked `List` of `int` nodes. It builds a list from an array, renders it as `1->2->nil` and compares two lists structurally, with a nil `*List` as a valid receiver. It inserts and deletes at the head and the tail, reverses a list in place, and runs Floyd's tortoise-and-hare cycle test and cycle-entrance search. It also removes the n-th node from the end, finds the middle node, merges two ascending lists and tests for a palindrome.

The `stack` package has a capacity-bounded array stack (`SequentialStack`) with Push, Pop, Count and Equal, and a linked stack (`ChainStack`). It also has an infix integer expression evaluator that works with two stacks (`ExpEvaluationSeq`) and a bracket matcher (`BracketMatch`). Its `BrowserFB` keeps browser back and forward navigation on two stacks.

The model follows the behaviour that the packages' test tables fix.

Modules:

- `Chains` holds the linked list's node store. The nodes live in an arena: slot `i` of `vals` holds a value and slot `i` of `next` holds the link, with `Nil = -1`. A walk follows the links from a head slot. The module defines what it means for a walk to run into a cycle (`Cyclic`) and the cycle's entrance (`IsEntrance`, the first node of the walk that the walk meets again). It proves that a walk which never reaches `Nil` repeats (pigeonhole) and that the tortoise and hare meet. It also proves that the meeting point, walked on in step with the head, leads to the entrance.
- `LinkedLists` has the class `LinkedList`, with fields `vals`, `next` and `head`. In a list the operations built, a ghost chain `nodes` lists the slots from the head to the last node, and `Values()` is the list's contents. The mutators are methods that rewire the arena in place. A nil `*List` is a null reference.
- `Sequences` holds the reference definitions the list methods are proved against: reversal, the palindrome predicate, ascending order and the merge of two sequences.
- `Rendering` holds the decimal rendering of a value list and a parser that reads it back.
- `Stacks` has `SequentialStack`, which is an array buffer, and `ChainStack`, which is a linked stack of `Node` objects. Both are proved against `Replay`, a value-level stack over a sequence of `Push` and `Pop` ops.
- `Expressions` holds the syntax and meaning of an expression: tokens, a chain of `(operator, literal)` links after a first literal, `ExprValue` (left-to-right, `* / %` binding tighter than `+ -`), and `Evaluate` on text. `ExpressionTable` holds the evaluator's test table.
- `Evaluation` holds `ExpEvaluationSeq`, the two-stack evaluator, proved equal to `Evaluate`.
- `Brackets` holds `BracketMatch`, a stack scan of the text, proved equal to the grammar of properly nested `()[]{}` with other characters ignored (`Nested`).
- `Browser` holds `BrowserFB`, proved equal to a replay of the op list from the home page "首页".

## Model

| member | source | states |
|---|---|---|
| LinkedLists.LinkedList.Relink | linkedlist/linked_list_test.go:285 | the direct assignment to a node's Next that the cycle tests perform (also lines 309 and 319): only that link changes, and values and head stay |
| LinkedLists.LinkedList.FromArray | linkedlist/linked_list_test.go:75-101 | createLinkedListFromArray: a list with one node per array element, in order; an empty array gives a present list without nodes |
| LinkedLists.LinkedList.String | linkedlist/linked_list_test.go:104-124 | the text is each value in decimal followed by "->", then "nil"; an empty list is "nil" |
| LinkedLists.Rendered | linkedlist/linked_list_test.go:104-124 | String on a possibly nil list: a nil list renders as "nil", exactly like a list without nodes |
| Rendering.ParseRender | linkedlist/linked_list_test.go:104-124 | reading the rendering of any value list back gives that list (the rendering loses nothing) |
| Rendering.RenderInjective | linkedlist/linked_list_test.go:104-124 | two lists with the same rendering hold the same values |
| LinkedLists.Equal | linkedlist/linked_list_test.go:16-72 | isLinkedListEqual: true exactly when both lists are nil, or both are present with the same values in order; a present empty list differs from a nil one |
| LinkedLists.LinkedList.InsertHead | linkedlist/linked_list_test.go:126-149 | insertNodeHead: the new values are the inserted value followed by the old ones |
| LinkedLists.LinkedList.InsertTail | linkedlist/linked_list_test.go:151-175 | insertNodeTail: the new values are the old ones followed by the inserted value |
| LinkedLists.LinkedList.DelHead | linkedlist/linked_list_test.go:177-201 | delNodeHead: the first value is dropped; a list without nodes is unchanged |
| LinkedLists.LinkedList.DelTail | linkedlist/linked_list_test.go:203-227 | delNodeTail: the last value is dropped; a list without nodes is unchanged |
| LinkedLists.LinkedList.UnlinkAfter | linkedlist/linked_list_test.go:203-227 | the shared unlinking step of delNodeTail and rmListNthFromEnd: exactly the value after the given node disappears and the list stays a chain |
| LinkedLists.LinkedList.Reverse | linkedlist/linked_list_test.go:229-253 | reverse: the links are turned round in place, and the values become the reversal of the old values |
| Sequences.ReverseShort | linkedlist/linked_list_test.go:235-237 | reversing an empty or one-element list leaves it unchanged |
| Sequences.ReverseInvolution | linkedlist/linked_list_test.go:229-253 | reversing twice gives the original sequence |
| Sequences.ReversePermutation | linkedlist/linked_list_test.go:229-253 | reversal keeps every element with its multiplicity |
| LinkedLists.ReverseLinks | linkedlist/linked_list_test.go:229-253 | the link-reversal loop: the new links form a chain over the old node slots in reverse order |
| LinkedLists.HasCycle | linkedlist/linked_list_test.go:255-288 | hasCycle: true exactly when the list is present and its walk revisits a node (nil and chain lists give false) |
| LinkedLists.Meet | linkedlist/linked_list_test.go:255-288 | Floyd's loop: it finds a meeting point exactly when the walk is cyclic, and the tortoise's position after j steps equals the hare's after 2j |
| Chains.MeetingExists | linkedlist/linked_list_test.go:255-288 | on a cyclic walk the hare and the tortoise meet after some j >= 1 steps |
| Chains.Pigeonhole | linkedlist/linked_list_test.go:255-288 | within as many links as there are slots, a walk either reaches nil or runs into a cycle |
| LinkedLists.ValidAcyclic | linkedlist/linked_list_test.go:261-265 | a list that the list operations built has no cycle |
| LinkedLists.CycleEntrance | linkedlist/linked_list_test.go:290-322 | getCycleEntrance: nil for a nil or acyclic list, otherwise the entrance of the cycle |
| LinkedLists.EntranceFrom | linkedlist/linked_list_test.go:290-322 | walking from the head and from the meeting point in step stops at the entrance |
| Chains.MeetingAligned | linkedlist/linked_list_test.go:290-322 | the first revisited position m is at most the meeting step i, and i more links from m return to m; this is why the in-step walk ends at the entrance |
| Chains.EntranceUnique | linkedlist/linked_list_test.go:290-322 | a walk has at most one entrance: any two entrances are the same slot (existence is EntranceExists) |
| Chains.EntranceExists | linkedlist/linked_list_test.go:290-322 | a cyclic walk has an entrance |
| LinkedLists.SevenEntrance | linkedlist/linked_list_test.go:279-287 | 1..7 with node 6 pointed at node 5 is cyclic, with its entrance in the fifth slot |
| LinkedLists.SevenCycleScenario | linkedlist/linked_list_test.go:318-321 | building 1..7, pointing node 6 at node 5 and searching gives a cycle whose entrance holds 5 |
| LinkedLists.ThreeCycleScenario | linkedlist/linked_list_test.go:308-311 | building 1..3, rewiring node 3 to the head and searching gives a cycle whose entrance holds 1 |
| LinkedLists.MergeTwoSorted | linkedlist/linked_list_test.go:324-351 | mergeTwoSortedList: the result holds the merge of the two value lists, where a nil list counts as empty |
| LinkedLists.MergeValues | linkedlist/linked_list_test.go:324-351 | the merging loop computes the two-way merge |
| Sequences.MergeSorted | linkedlist/linked_list_test.go:324-351 | the merge of two ascending sequences is ascending |
| Sequences.MergePermutation | linkedlist/linked_list_test.go:324-351 | the merge keeps every element of both inputs, duplicates included (test5 gives [1, 1]) |
| Sequences.MergeEmpty | linkedlist/linked_list_test.go:331-339 | merging with an empty side gives the other side |
| LinkedLists.LinkedList.RemoveNthFromEnd | linkedlist/linked_list_test.go:353-378 | rmListNthFromEnd: for 1 <= n <= length the value n places from the end is removed (n = length removes the head); any other n leaves the list alone |
| LinkedLists.MiddleNode | linkedlist/linked_list_test.go:380-411 | getMiddleNode: nil for a nil or empty list, otherwise the node at position (length - 1) / 2, the first of the two middles for an even length |
| LinkedLists.MiddleSuffix | linkedlist/linked_list_test.go:380-404 | the nodes from the middle on form a chain holding the values from position (length - 1) / 2 on |
| LinkedLists.LinkedList.IsPalindrome | linkedlist/linked_list_test.go:413-439 | isPalindrome: true exactly when the values read the same backwards |
| LinkedLists.Palindromic | linkedlist/linked_list_test.go:413-439 | isPalindrome on a possibly nil list: a nil list is a palindrome; a present one is exactly when its values read the same backwards |
| Sequences.PalindromeByHalves | linkedlist/linked_list_test.go:413-439 | a sequence reads the same backwards exactly when each element of its first half equals its mirror element counted from the end |
| Stacks.SequentialStack.constructor | stack/stack_test.go:22-24 | NewSequentialStack(cap): empty; a negative cap gives the nil stack |
| Stacks.SequentialStack.Push | stack/stack_test.go:121-124 | Push appends the value unless the stack is at capacity, in which case nothing changes |
| Stacks.SequentialStack.Pop | stack/stack_test.go:83-99 | Pop returns the top and true and removes it; on an empty stack it returns (0, false) and changes nothing |
| Stacks.SequentialStack.Count | stack/stack_test.go:80-81 | Count is the number of stacked values |
| Stacks.SequentialStack.Equal | stack/stack_test.go:14-44 | Equal: the nil stack equals only a nil slice; any other stack equals exactly the slice of its values from the bottom up |
| Stacks.ReplaySequential | stack/stack_test.go:33-39 | the test loop over Push and Pop ops leaves the stack holding the value-level replay of the ops |
| Stacks.ReplayWithinBound | stack/stack_test.go:115-139 | replaying any ops on a stack within its capacity keeps it within that capacity |
| Stacks.ReplayConcat | stack/stack_test.go:33-39 | replaying two op lists one after the other is replaying their concatenation |
| Stacks.PushThenPop | stack/stack_test.go:101-105 | a push that fits, followed by a pop, gives back the old stack, and the pushed value was on top |
| Stacks.ReplayPushes | stack/stack_test.go:170-207 | on the unbounded stack, pushing xs appends xs |
| Stacks.CapacityTwoTable | stack/stack_test.go:121-124 | the capacity-2 op table: [], [1, 2], [1, 2] with the third push refused, and [2, 3] after two pops |
| Stacks.SequentialEqualTable | stack/stack_test.go:22-27 | the Equal table: true, false, false, false, false, true |
| Stacks.SequentialSession | stack/stack_test.go:76-112 | the session on a capacity-3 stack: counts 2, 1, 0, 0, 1, 0 and pops (2, true), (1, true), (0, false), (10, true) |
| Stacks.ChainStack.constructor | stack/stack_test.go:171 | NewChainStack: an empty linked stack with count 0 |
| Stacks.ChainStack.Push | stack/stack_test.go:170-176 | ChainStack Push puts the value on top, with no bound |
| Stacks.ChainStack.Pop | stack/stack_test.go:177-193 | ChainStack Pop returns the top and true and removes it; (0, false) on an empty stack |
| Stacks.ChainStack.Count | stack/stack_test.go:174-175 | ChainStack Count is the number of stacked values |
| Stacks.ReplayChain | stack/stack_test.go:195-199 | a run of Push and Pop ops leaves the linked stack holding the unbounded replay |
| Stacks.ChainSession | stack/stack_test.go:170-207 | the ChainStack session: the same counts and pops as the array stack's |
| Evaluation.ExpEvaluationSeq | stack/stack_test.go:210-237 | the two-stack evaluator returns (v, nil) exactly when the text evaluates to v, and (0, f) when it fails with f |
| Evaluation.Shift | stack/stack_test.go:210-237 | the scan pushes literals and operators with the pending stacks after each link equal to the reference's, or reports a division by zero that the expression contains |
| Evaluation.Reduce | stack/stack_test.go:210-237 | popping and applying operators of strength >= level leaves the stacks the reference reduction prescribes, or finds a division by zero |
| Evaluation.EvaluateStacks | stack/stack_test.go:210-237 | on a well-formed expression the stacks compute ExprValue, error included |
| Expressions.ExprFails | stack/stack_test.go:225-226 | the value fails exactly when some / or % has the literal 0 on its right, and then the failure is a division by zero |
| Expressions.DivisionByZeroExactly | stack/stack_test.go:225-226 | Evaluate gives errDivisionByZero exactly for a well-formed expression with a / or % by 0 |
| Expressions.TokenizeShow | stack/stack_test.go:210-237 | tokenizing the text of alternating literals and operators gives those tokens back |
| Expressions.ParseSpell | stack/stack_test.go:210-237 | parsing the tokens of a chain gives the chain back |
| Expressions.EvaluateChain | stack/stack_test.go:210-237 | evaluating the text of an expression gives its value |
| Expressions.StrayCharacter | stack/stack_test.go:224 | a character that is neither a digit nor an operator makes the text an invalid expression |
| Expressions.TrailingOperator | stack/stack_test.go:221 | a text that ends in an operator is an invalid expression |
| Expressions.TermNonNegative | stack/stack_test.go:222 | a product of literals is never negative, so a negative result comes only from subtraction |
| Expressions.LastTerm | stack/stack_test.go:219-222 | the value is the part before the last + or - combined with the term that follows it |
| ExpressionTable.SumTable | stack/stack_test.go:218 | "1+2" gives 3 |
| ExpressionTable.MixedTable | stack/stack_test.go:219 | "1+2*3/2-1" gives 3 |
| ExpressionTable.LongTable | stack/stack_test.go:220-221 | "1+2*3/2-1*2+4%3" gives 3, and with a trailing "+" it is an invalid expression |
| ExpressionTable.NegativeTable | stack/stack_test.go:222 | "3*2+2-5*6" gives -22 |
| ExpressionTable.ProductTable | stack/stack_test.go:223 | "12*200" gives 2400 |
| ExpressionTable.ZeroTable | stack/stack_test.go:225-226 | "12/0" and "12%0" fail with a division by zero |
| ExpressionTable.InvalidTable | stack/stack_test.go:217-224 | "12(200+2" is an invalid expression, and "" gives 0 without error |
| Brackets.BracketMatch | stack/stack_test.go:239-269 | the stack scan answers true exactly when the brackets of the text are properly nested, other characters ignored |
| Brackets.RunDecides | stack/stack_test.go:239-269 | the scan started on an empty stack ends on an empty stack exactly for properly nested text |
| Brackets.NestedConcat | stack/stack_test.go:250-252 | two properly nested texts in a row are properly nested |
| Brackets.Wrap | stack/stack_test.go:251 | an opening bracket, a properly nested text and the matching closer are properly nested |
| Brackets.OpenAtEnd | stack/stack_test.go:253 | a properly nested text followed by an opening bracket is not properly nested |
| Brackets.MatchedShort | stack/stack_test.go:248-250 | "{}", "()" and "()[]{}" match |
| Brackets.MatchedRound | stack/stack_test.go:251 | "([{()}])" matches |
| Brackets.MatchedDeep | stack/stack_test.go:252 | "([{()}])[[{{([])}}]]" matches |
| Brackets.UnmatchedTail | stack/stack_test.go:253 | "([{()}])[[{{([])}}]][" does not match |
| Brackets.UnmatchedOpen | stack/stack_test.go:254-259 | "(", "a[c" and "a{c" do not match |
| Brackets.UnmatchedOpenLong | stack/stack_test.go:256 | "ddf(1345" does not match |
| Brackets.UnmatchedClose | stack/stack_test.go:255 | "a)c" does not match |
| Brackets.UnmatchedCloseLong | stack/stack_test.go:258-260 | "ddf]1345" and "ddf}1345" do not match |
| Browser.BrowserFB | stack/stack_test.go:271-293 | the two stacks after the ops are the replay of the ops from the home page, and the home page stays at the bottom of the back stack |
| Browser.HomeStays | stack/stack_test.go:278-283 | whatever the ops, the back stack is never empty and starts with the home page |
| Browser.MovesKeepTrail | stack/stack_test.go:280-283 | going back or forward never loses or reorders a page of the history |
| Browser.OpenAppends | stack/stack_test.go:279 | opening a page pushes it on the back stack |
| Browser.BackThenForward | stack/stack_test.go:282 | going back and then forward restores the history |
| Browser.ForwardThenBack | stack/stack_test.go:282 | going forward and then back restores the history |
| Browser.ForwardAtEnd | stack/stack_test.go:281 | going forward with nothing ahead changes nothing |
| Browser.ShortTable | stack/stack_test.go:278-282 | the first five rows of the BrowserFB table |
| Browser.LongTable | stack/stack_test.go:283 | three opens, a forward and three backs leave the home page behind and web3, web2, web1 ahead |

## Left out

- Go's fixed-width `int`: the model uses unbounded integers. Overflow in the list values, in stack values and in expression arithmetic is not modelled.
- Generics: the stacks are modelled over `int`. The string rows of the stack tables (stack/stack_test.go:45-73 and 142-167) repeat the `int` rows with the same op sequences.
- The test harness: `t.Run`, `t.Log`, `t.Errorf` and `assert` are not modelled. Each table becomes a lemma or a method whose ensures are the table's expected values.
- LinkedLists.MergeTwoSorted: the Go code relinks the input nodes into the result. The model copies the merged values into a fresh list, so sharing between the result and the inputs is not modelled.
- LinkedLists.LinkedList.IsPalindrome: the check reads the values into a sequence and compares each value of the first half with its mirror from the end. It does not reverse the second half of the list in place and restore it.
- LinkedLists.LinkedList.ToSeq and LinkedLists.MergeValues work on sequences of values read from the list.
- LinkedLists.LinkedList: the instance methods require a present receiver. For String and isPalindrome, the free methods LinkedLists.Rendered and LinkedLists.Palindromic take a possibly nil list. Calling a mutator on a nil `*List` is not modelled, and the tables never do.
- LinkedLists.MiddleNode returns the middle slot. The suffix list from that node, which the test wraps as a new List, is stated by LinkedLists.MiddleSuffix.
- Stacks.SequentialStack.constructor: a capacity of 0 gives an empty, non-nil stack that refuses every push. A negative capacity gives the nil stack.
- Stacks.ChainStack has no Equal, because the tests never compare a ChainStack.
- Browser.BrowserFB keeps its two stacks as sequences, not as `SequentialStack` objects. Going back with only the home page on the back stack changes nothing. Opening a page keeps the forward stack as it is, since no test opens a page after going back.
- Evaluation.ExpEvaluationSeq:
  - Parentheses, spaces and every other character make the text an invalid expression.
  - A leading or doubled operator is invalid, so unary minus is not modelled.
  - The text's shape is checked before any arithmetic. A text that is malformed after a division by zero is therefore reported as invalid, whatever order the Go code checks in.
  - `/` and `%` round toward zero, as Go's do.
- The commented-out bracket cases at stack/stack_test.go:245-247 are not stated; the model would accept all three.
