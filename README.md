# bigger: laminations on lazily defined triangulations, in Dafny

`bigger` computes with measured laminations on triangulations of surfaces that may have
infinitely many edges. A triangulation is never built. It is a function from an edge to its
*link*, the square `(a, b, c, d)` of which the edge is the diagonal. A lamination is a weight
function on edges, together with a description of its support.

Moves rewrite one triangulation into another and carry laminations along. The moves are
simultaneous edge flips, which use a nine-case tropical weight rule, and relabellings. An
*encoding* is a sequence of moves. Encodings compose, invert, take powers and slice.

On top of this the project models:
- shortening a finitely supported lamination, by greedy flips, to one of complexity two;
- Dehn twists, as a conjugation of a twist on the shortened lamination;
- mapping class group words, written as dotted generator names.

Two infrastructure pieces are modelled as well:
- the exact halving that the flip rule relies on;
- the memoization cache and the `finite` guard.

The union–find structure is also modelled.

This project models those pieces. Edges are an opaque type parameter `E`, of which only
equality is used. Every exception the modelled code raises is an `Err` value of
`Types.Error`, one constructor per Python exception class, except the KeyError of a
union–find lookup of an unknown item, which a precondition excludes (see "## Left out"). `Lamination.__call__` is the `weight` field of
`Types.Lamination`. A lamination's support is either `Finite(edges)`, which stands for a
`FinitelySupportedLamination` or a set-valued support, or `Infinite`, which stands for an
unbounded generator.

Files and modules:
- `types.dfy`, module `Types`: errors, `Result`, `Option`, support, square, triangulation,
  lamination, move, encoding.
- `utilities.dfy`, module `Utilities`: `half`.
- `decorators.dfy`, module `Decorators`: `memoize`, as the class `Memo` that owns `_cache`,
  and `finite`.
- `structures.dfy`, module `Structures`: `UnionFind`, a class whose `parent` and `rank` maps
  are updated in place.
- `encoding.dfy`, module `Encodings`: `Move`, and `Encoding` without `__pow__`.
- `powers.dfy`, module `Powers`: `Encoding.__pow__`. It is separate because it needs
  `encode_identity`.
- `moves.dfy`, module `Moves`: `EdgeFlip` and `Isometry`.
- `triangulation.dfy`, module `Triangulations`: `star`, `encode_flip`, `encode_isometry`,
  `encode_isometry_from_dict`, `encode_identity`, `encode` and `__call__`.
- `lamination.dfy`, module `Laminations`: `__eq__`, `complexity`, `is_short`, `shorten` and
  `encode_twist`.
- `mappingclassgroup.dfy`, module `MappingClassGroups`: `MappingClassGroup.__call__`.

Code that loops keeps its loop. Each of these methods is proved equal to a specification
function, and the properties are proved about that function:
- `Encoding.__call__` is `Encodings.Apply`;
- `Triangulation.encode` is `Triangulations.Encode`;
- the inner loop of `shorten` is `Laminations.BestFlip`;
- `shorten` is `Laminations.Shorten` and `Laminations.ShortenAsWritten`;
- the `find`, `union` and iteration loops are methods of `Structures.UnionFind`.

Python iterates a set in an order the model cannot know. That order is a parameter,
`order`, which lists each set it is given. Complexity and equality are proved independent of
the order wherever no weight raises.

## Model

| member | source | states |
|---|---|---|
| Utilities.FloorHalf | bigger/utilities.py:16 | `//` by two rounds toward minus infinity: `2r <= i < 2r + 2` |
| Utilities.Mul | bigger/utilities.py:14-21 | an int halves iff it is even, otherwise ValueError; a Fraction always halves; a success doubles back to the input and keeps its kind |
| Utilities.RMul | bigger/utilities.py:26-27 | `n * half` is `half * n` |
| Utilities.Call | bigger/utilities.py:28-29 | `half(n)` is `half * n` |
| Utilities.HalfOfInt | bigger/utilities.py:14-21 | on an int the result is `n // 2` when `2*(n//2) == n`; odd numbers, negative ones too, raise ValueError |
| Utilities.HalfInt | bigger/utilities.py:14-21 | the exact half of an even int, ValueError on an odd one |
| Decorators.KeyArguments | bigger/decorators.py:15-16 | a method's key leaves out the receiver, a function's key keeps every argument; a method called without arguments fails on `args[0]` |
| Decorators.Stored | bigger/decorators.py:26-30 | a miss adds the key with the value or the caught exception; a hit, or an escaping BaseException, leaves the cache as it was; existing entries are never changed |
| Decorators.Reply | bigger/decorators.py:26-37 | a hit returns or re-raises what is stored; a miss returns or raises what the function did |
| Decorators.StoredStorable | bigger/decorators.py:27-30 | the cache only ever holds values and caught `Exception`s |
| Decorators.RepeatHits | bigger/decorators.py:26-37 | once stored, every later call with the key replies the stored outcome, whatever the function would now do, and leaves the cache unchanged: the function runs at most once per key |
| Decorators.Transparent | bigger/decorators.py:14-37 | for a function that is deterministic on keys, the cached reply is the function's own result and the cache stays consistent with it |
| Decorators.Memo.Call | bigger/decorators.py:14-37 | creates the cache on first use; unhashable keyword arguments bypass the cache; unhashable positional arguments raise TypeError at the lookup; otherwise the new cache is `Stored` and the reply is `Reply`, and the function runs iff the key was missing |
| Decorators.Finite | bigger/decorators.py:44-56 | ValueError iff the lamination is not finitely supported, otherwise the wrapped result |
| Structures.UnionFind.constructor | bigger/structures.py:12-15 | every item is its own parent with rank 0, so the number of groups is the number of distinct items |
| Structures.UnionFind.Len | bigger/structures.py:24-25 | the number of items that are their own parent is the number of groups |
| Structures.UnionFind.Find | bigger/structures.py:33-40 | returns the root reached by following parents from `x`, a node that is its own parent; only the parent of `x`'s parent changes, to the root; no item changes group and no rank changes |
| Structures.UnionFind.Union2 | bigger/structures.py:42-51 | afterwards `x` and `y` share a group and the other groups are unchanged; the number of groups drops by one iff they were apart; the root of `y`'s old group goes under the root of `x`'s when `rank[x] >= rank[y]`, otherwise the reverse, so the merged group keeps that root's name; the new `parent` map is the two `find` repointings followed by that one link; ranks follow the same comparison, and only a root's rank grows, in the equal-rank case with distinct roots |
| Structures.UnionFind.Union | bigger/structures.py:53-56 | every listed item ends in the group of the first; groups not touched by a listed item are unchanged |
| Structures.UnionFind.Iterate | bigger/structures.py:17-22 | the groups form a partition: each is nonempty and within one group, distinct lists hold distinct groups, and together they hold every item exactly as often as `items` does; groups and ranks are unchanged |
| Structures.MergedGroups | bigger/structures.py:45-51 | merging the groups of `x` and `y` lowers the count by one exactly when they differed |
| Structures.GroupIsWalk | bigger/structures.py:35-37 | the recorded group of an item is the root its parent walk reaches |
| Structures.RootsAreGroups | bigger/structures.py:25 | the items that are their own parent are exactly the group representatives |
| Structures.UnionJoinsArgs | bigger/structures.py:53-56 | after `union`, every listed item has the group of the first |
| Structures.BucketsPartition | bigger/structures.py:19-22 | bucketing the items by root gives a partition holding every item as often as it was listed |
| Encodings.Invert | bigger/encoding.py:18-19 | the inverse move swaps source with target and action with inverse action |
| Encodings.InvertInvolutive | bigger/encoding.py:18-19 | inverting twice restores the move |
| Encodings.ApplyInvert | bigger/encoding.py:18-21 | calling the inverted move runs the inverse action |
| Encodings.Single | bigger/encoding.py:22-24 | `Move.encode` is an encoding from the move's source to its target |
| Encodings.NewEncoding | bigger/encoding.py:28-31 | an empty sequence raises IndexError, any other gives an encoding of exactly those moves |
| Encodings.Moves | bigger/encoding.py:32-34 | iteration visits the moves last-listed first |
| Encodings.Mul | bigger/encoding.py:35-36 | the product's moves are the left moves followed by the right ones |
| Encodings.MulEnds | bigger/encoding.py:28-36 | `a * b` runs from `b.source` to `a.target` |
| Encodings.MulAssociative | bigger/encoding.py:35-36 | the product is associative |
| Encodings.Inverse | bigger/encoding.py:37-38 | `~e` lists the moves of `e` reversed, each inverted |
| Encodings.InverseEnds | bigger/encoding.py:37-38 | `~e` runs from `e.target` to `e.source` |
| Encodings.InverseInvolutive | bigger/encoding.py:37-38 | `~~e` is `e` move by move |
| Encodings.InverseMul | bigger/encoding.py:35-38 | `~(a * b) == ~b * ~a` |
| Encodings.Position | bigger/encoding.py:39-43 | a Python index is in range iff `-n <= i < n`, and a negative one counts from the end |
| Encodings.GetItem | bigger/encoding.py:39-43 | `e[i]` is the move at that position, IndexError out of range |
| Encodings.SliceBound | bigger/encoding.py:39-41 | each end of a slice is clamped into `0..n` the way Python clamps it |
| Encodings.Slice | bigger/encoding.py:39-41 | `e[i:j]` is the encoding of the moves in the clamped range, IndexError when the range is empty |
| Encodings.SliceConcat | bigger/encoding.py:35-41 | cutting an encoding at an inner position and multiplying the two slices gives it back |
| Encodings.ApplyConcat | bigger/encoding.py:50-53 | applying `a + b` applies `b` and then `a`, and the first failure propagates |
| Encodings.ApplyMul | bigger/encoding.py:50-53 | `(a * b)(L) == a(b(L))` |
| Encodings.ApplySingle | bigger/encoding.py:50-53 | a one-move encoding applies that move's action |
| Encodings.ApplyInverse | bigger/encoding.py:37-53 | when every move's inverse action undoes its action, `~e` undoes `e` |
| Encodings.Apply | bigger/encoding.py:50-53 | the loop that rebinds `lamination` move by move computes the right-to-left application of the moves |
| Powers.Repeat | bigger/encoding.py:56 | list repetition has `n` times the length |
| Powers.RepeatAdd | bigger/encoding.py:56 | `s * (m + n) == s * m + s * n` |
| Powers.Pow | bigger/encoding.py:54-58 | every power is an encoding; a nonzero power has `abs(power)` times the moves |
| Powers.PowEnds | bigger/encoding.py:54-58 | the zeroth power starts at the source; a positive power runs source to target, a negative one target to source |
| Powers.PowOne | bigger/encoding.py:54-58 | `e ** 1 == e` |
| Powers.PowAdd | bigger/encoding.py:54-58 | `e ** (m + n) == (e ** m) * (e ** n)` for positive `m`, `n` |
| Powers.InverseRepeat | bigger/encoding.py:56-58 | inverting a repetition repeats the inverse |
| Powers.PowNegative | bigger/encoding.py:54-58 | `e ** -n == ~(e ** n) == (~e) ** n` |
| Moves.Invert | bigger/moves.py:20-21 | the inverse move swaps the ends; a flip keeps its edge and a relabelling swaps `isom` with `inv_isom` |
| Moves.InvertInvolutive | bigger/moves.py:65-66 | inverting a move twice gives it back |
| Moves.FlipWeight | bigger/moves.py:30-32 | every edge other than the flipped one keeps its weight |
| Moves.FlipSupport | bigger/moves.py:57 | a finite support loses the edge and regains it iff its new weight is nonzero; that weight raising makes the call raise; an unbounded support passes on nothing |
| Moves.ImageSupport | bigger/moves.py:76 | a finite support is carried by `isom`, an unbounded one passes on nothing |
| Moves.EdgeFlipApplied | bigger/moves.py:29-58 | a flip raises ValueError on an unbounded support; otherwise it fails iff the edge's new weight raises, lands on the target, keeps the other weights, and updates the support at the edge only |
| Moves.EdgeFlipRule | bigger/moves.py:35-55 | the flipped edge's new weight is the first matching case of the flip rule on the clamped square |
| Moves.EdgeFlipAgreesWithFlipSet | bigger/moves.py:30-55 | a single flip weighs every edge as the simultaneous flip of that edge alone |
| Moves.IsometryApplied | bigger/moves.py:73-77 | a relabelling raises ValueError on an unbounded support; otherwise it lands on the target, weighs `e` as `L(inv_isom(e))` and carries the support by `isom` |
| Moves.IsometryRoundTrip | bigger/moves.py:65-77 | when `inv_isom` undoes `isom`, the inverse relabelling restores triangulation, support and weights |
| Moves.Encode | bigger/moves.py:13-14 | `Move.encode` gives a one-move encoding with the move's ends |
| Moves.EncodeInverse | bigger/moves.py:13-21 | inverting the encoding of a move agrees with encoding the inverse move |
| Triangulations.Star | bigger/triangulation.py:30-33 | the star is the link followed by the edge |
| Triangulations.Selector | bigger/triangulation.py:41-43 | a set flips exactly its members |
| Triangulations.FlippedLink | bigger/triangulation.py:57-60 | a flipped edge with square `(a,b,c,d)` gets `(b,c,d,a)` |
| Triangulations.UntouchedLink | bigger/triangulation.py:57-83 | an edge with nothing flipped in its square keeps its square |
| Triangulations.FlipTwice | bigger/triangulation.py:57-60 | flipping an edge twice turns its square by 180 degrees |
| Triangulations.Case | bigger/triangulation.py:97-114 | the case taken is the first of the nine whose condition holds |
| Triangulations.FlipRuleFails | bigger/triangulation.py:109-112 | the rule fails only in N(ab) and N(cd) on an odd dividend, and then with ValueError |
| Triangulations.FlipRuleRotation | bigger/triangulation.py:97-114 | reading the square from the opposite corner does not change the new weight |
| Triangulations.FlipRuleMirror | bigger/triangulation.py:97-114 | swapping `a` with `b` and `c` with `d` does not change the new weight |
| Triangulations.FlipWeight | bigger/triangulation.py:89-91 | an edge that is not flipped keeps its weight |
| Triangulations.FlipWeightRule | bigger/triangulation.py:93-114 | a flipped edge gets the flip rule on its weight and the clamped weights of its square |
| Triangulations.Neighbours | bigger/triangulation.py:117-121 | the edges in the target star of some support edge |
| Triangulations.FlipSupport | bigger/triangulation.py:116-126 | a finite support becomes the neighbours with nonzero new weight, and fails iff one of their weights raises; an unbounded support stays unbounded |
| Triangulations.FlipTransported | bigger/triangulation.py:88-126 | the transport lands on the target with the flip weights and the recomputed support, finite iff it was |
| Triangulations.EncodeFlip | bigger/triangulation.py:35-131 | one move from the triangulation to the flipped one |
| Triangulations.EncodeFlipActions | bigger/triangulation.py:128-131 | the move's action runs source to target and its inverse action target to source |
| Triangulations.EncodeFlipSet | bigger/triangulation.py:41-43 | a set of edges is flipped through its membership test |
| Triangulations.EncodeIsometry | bigger/triangulation.py:133-169 | one move onto the relabelled triangulation, whose links are `isom` of the links at `inv_isom(e)` |
| Triangulations.IsometryActions | bigger/triangulation.py:143-167 | the action reads `L(inv_isom(e))` and the inverse action reads `L(isom(e))`, each carrying the support |
| Triangulations.IsometryRoundTrip | bigger/triangulation.py:137-167 | when `inv_isom` undoes `isom`, the inverse action restores the weights and support |
| Triangulations.Get | bigger/triangulation.py:176 | an edge that is not a key gets the default |
| Triangulations.GetLast | bigger/triangulation.py:176 | a key gets the value of its last item |
| Triangulations.Swap | bigger/triangulation.py:173 | the inverse dictionary swaps every key with its value |
| Triangulations.EncodeIsometryFromDict | bigger/triangulation.py:171-181 | the relabelling by the dictionary and by its swapped dictionary |
| Triangulations.DictMapValues | bigger/triangulation.py:175-176 | an edge that is not a key is fixed; a key goes to its value |
| Triangulations.DictInverse | bigger/triangulation.py:173-179 | a dictionary that permutes its keys is undone by its swapped dictionary |
| Triangulations.EncodeIdentity | bigger/triangulation.py:183-185 | the identity is one move starting at the triangulation |
| Triangulations.IdentityChangesNothing | bigger/triangulation.py:183-185 | the identity keeps every link, and a lamination keeps its weights and support |
| Triangulations.TermEncoding | bigger/triangulation.py:199-206 | each kind of item becomes a one-move encoding starting where it is built |
| Triangulations.EncodeSpec | bigger/triangulation.py:197-209 | `encode` starts at the triangulation and has one move per item plus the identity |
| Triangulations.EncodeMoves | bigger/triangulation.py:197-209 | item `i` becomes move `i`, built on the target of the items after it; the identity comes last |
| Triangulations.Encode | bigger/triangulation.py:197-209 | the loop over the reversed list computes `EncodeSpec` |
| Triangulations.Call | bigger/triangulation.py:211-223 | a dictionary drops its zero entries, weighs unlisted edges 0 and is supported on the rest; a function without a support raises ValueError |
| Triangulations.DictSupport | bigger/triangulation.py:212-218 | a lamination from a dictionary has in its support exactly the edges of nonzero weight |
| Laminations.SameListing | bigger/lamination.py:43 | two listings of one support hold the same edges |
| Laminations.ClampedSum | bigger/lamination.py:43 | the sum of clamped weights succeeds iff every weight can be read, and is never negative |
| Laminations.ClampedSumAppend | bigger/lamination.py:43 | the sum over a concatenation is the sum of the sums |
| Laminations.ClampedSumPermutation | bigger/lamination.py:43 | the sum does not depend on the order of its terms |
| Laminations.ClampedSumCongruent | bigger/lamination.py:43 | equal weights give equal sums |
| Laminations.ClampedSumBounds | bigger/lamination.py:43 | each clamped term is at most the sum, and a positive sum has a positive term |
| Laminations.Complexity | bigger/lamination.py:41-43 | complexity succeeds iff every support weight can be read, and is never negative |
| Laminations.ComplexityOrderFree | bigger/lamination.py:41-43 | complexity does not depend on the iteration order of the support |
| Laminations.ComplexityCongruent | bigger/lamination.py:41-43 | laminations with one support and equal weights have equal complexity |
| Laminations.IsShort | bigger/lamination.py:73-77 | `is_short` iff the complexity is two; a short lamination weighs every support edge at most two, and some edge positively |
| Laminations.Agree | bigger/lamination.py:32-34 | `all(...)` is true iff the weights agree along the listing, and answers whenever no weight raises |
| Laminations.AgreeSymmetric | bigger/lamination.py:32 | agreement does not depend on which side asks |
| Laminations.Equals | bigger/lamination.py:30-36 | equal iff the other is a lamination with the same support and the same weights on it, or a dictionary whose keys are the support and whose values are the weights; anything else is not equal |
| Laminations.EqualsReflexive | bigger/lamination.py:30-32 | a lamination equals itself |
| Laminations.EqualsSymmetric | bigger/lamination.py:30-32 | equality of laminations is symmetric |
| Laminations.EqualsOwnDict | bigger/lamination.py:33-34 | a lamination made from a dictionary equals that dictionary iff the dictionary has no zero values |
| Laminations.ListsEmpty | bigger/lamination.py:56 | the loop over the support is empty iff the support is |
| Laminations.FlipCandidate | bigger/lamination.py:57 | each candidate is one move starting at the current triangulation |
| Laminations.FlipKeepsFinite | bigger/lamination.py:57-58 | a candidate flip keeps a finite support finite and lands on the candidate's target |
| Laminations.CandidateComplexity | bigger/lamination.py:57-59 | a candidate's complexity is never negative |
| Laminations.Pick | bigger/lamination.py:55-61 | the round's best never exceeds the starting complexity |
| Laminations.PickOk | bigger/lamination.py:55-61 | the round fails iff some candidate's flip or complexity raises |
| Laminations.PickBelow | bigger/lamination.py:55-61 | the round's best is at most every candidate's complexity, and not negative when the start is not |
| Laminations.PickMinimal | bigger/lamination.py:55-61 | the round fails iff some candidate fails; otherwise its best is at most every candidate's complexity |
| Laminations.PickAchieved | bigger/lamination.py:55-61 | the best is the start or the complexity of the flip recorded as `best_h` |
| Laminations.PickLast | bigger/lamination.py:56-57 | after the round `h` is the candidate of the last edge, or unchanged when there were no edges |
| Laminations.PickKeeps | bigger/lamination.py:55-61 | the best lies between zero and the start, `best_h` is an encoding, and `h` is a single flip |
| Laminations.BestFlip | bigger/lamination.py:55-61 | the inner loop computes `Pick` over the support in iteration order |
| Laminations.PickTwo | bigger/lamination.py:55-61 | over two edges where the first candidate beats the start and the second is worse, `best_h` is the first flip and `h` the second |
| Laminations.CandidateUnfold | bigger/lamination.py:57-59 | a candidate that flips without raising has the complexity of its image |
| Laminations.ShortenStep | bigger/lamination.py:63-66 | applying `best_h` never raises, keeps the support finite and gives exactly the recorded best complexity |
| Laminations.ShorteningRound | bigger/lamination.py:63-66 | a round applying `best_h` keeps the lamination equal to the conjugator's moves applied to the start |
| Laminations.ShortenAsWritten | bigger/lamination.py:44-71 | as written: whatever is returned is short and its conjugator starts at the triangulation; an empty support raises NameError |
| Laminations.Shorten | bigger/lamination.py:44-71 | the result is short; the start had complexity at least two; the conjugator starts at the triangulation and its moves before the final identity carry the start to the result; an empty support raises ValueError |
| Laminations.ListedSize | bigger/lamination.py:102 | a listing is as long as the support it lists |
| Laminations.SwapDict | bigger/lamination.py:106 | `{e: x, x: e}` has distinct keys |
| Laminations.SwapDictSwaps | bigger/lamination.py:106 | as a relabelling, `{e: x, x: e}` swaps `e` with `x` and fixes everything else |
| Laminations.TwistMove | bigger/lamination.py:106 | the twist is three moves starting at the short lamination's triangulation |
| Laminations.TwistOf | bigger/lamination.py:102-111 | a support without exactly two edges raises ValueError; the weight of `b` decides between the `b == d` and `a == c` assertions, which raise AssertionError; the result is `~conjugator * twist * conjugator`, starting and ending at the conjugator's source |
| Laminations.EncodeTwistAsWritten | bigger/lamination.py:79-111 | the twist, taken about what `shorten` as written returns, is a mapping class of the lamination's triangulation; an empty support raises the NameError of `shorten`'s unbound `h` |
| Laminations.EncodeTwist | bigger/lamination.py:79-111 | over the corrected shortening: the twist is a mapping class of the lamination's triangulation; an empty support is refused with ValueError |
| Laminations.TwoEdgeComplexity | bigger/lamination.py:43 | a lamination supported on two edges has the sum of their clamped weights as complexity |
| Laminations.TwoArcsFlip | bigger/lamination.py:57-58 | flipping edge 0 or edge 10 of the example negates that weight and keeps the support |
| Laminations.TwoArcsCandidate | bigger/lamination.py:57-59 | the example's candidates have complexity 2 (edge 0) and 3 (edge 10) |
| Laminations.StaleCandidate | bigger/lamination.py:55-65 | on the example listed as 0 then 10, the round records the flip of 0 with complexity 2 but leaves `h` at the flip of 10 |
| MappingClassGroups.JoinAppend | bigger/mappingclassgroup.py:14 | joining two runs of pieces puts one separator between their joins |
| MappingClassGroups.Split | bigger/mappingclassgroup.py:14 | `split` gives at least one piece, and no piece holds the separator |
| MappingClassGroups.JoinSplit | bigger/mappingclassgroup.py:14 | joining the pieces of a split gives the string back |
| MappingClassGroups.SplitNoSep | bigger/mappingclassgroup.py:14 | a name without a dot is one piece |
| MappingClassGroups.SplitAppend | bigger/mappingclassgroup.py:14 | splitting `u.v` splits `u` and `v` on their own |
| MappingClassGroups.SplitJoin | bigger/mappingclassgroup.py:14 | splitting undoes joining pieces without separators |
| MappingClassGroups.Generated | bigger/mappingclassgroup.py:14 | the moves of every name in order, or the exception of the first refused name |
| MappingClassGroups.GeneratedAppend | bigger/mappingclassgroup.py:14 | generating two runs concatenates their moves; the first refusal wins |
| MappingClassGroups.GeneratedNonEmpty | bigger/mappingclassgroup.py:14-15 | the concatenation is empty iff there are no names |
| MappingClassGroups.Call | bigger/mappingclassgroup.py:13-15 | the result fails iff some name is refused, with that name's exception, and is always an encoding |
| MappingClassGroups.OneName | bigger/mappingclassgroup.py:13-15 | a word of one name is that generator's encoding |
| MappingClassGroups.WordProduct | bigger/mappingclassgroup.py:13-15 | the word `u.v` is the product of the words `u` and `v`, and a refusal in `u` wins |

## Left out

- Laziness. Support generators and weight closures over infinite edge sets are not modelled
  as generators. A support is a finite set or the tag `Infinite`. Restarting a generator and
  enumerating an infinite edge set are not modelled.
- `Lamination` and `FinitelySupportedLamination` are one datatype with a support tag. Python
  builds a lamination with a support thunk that the shown `Lamination` constructor does not
  take, so the two shapes are unified.
- Python set iteration order is the parameter `order`. The model proves order independence
  where it holds instead of fixing an order.
- Dictionaries given to `encode_isometry_from_dict` and `encode` are sequences of key–value
  pairs in insertion order. A later item overrides an earlier one, as in a dict display.
- `orient`/`unorient` in `moves.py` are the identity, and `square(e)` is `star(e)`.
- `Move.encode` in `moves.py` passes three arguments to `Encoding`, which takes one. The model
  wraps the move in a one-move encoding, as `encoding.py`'s `Move.encode` does.
- Triangulations.FlipSupport evaluates the new weights of the neighbours when the flip is
  applied. Python evaluates them at the next `support()` call, so the same ValueError is
  raised later there.
- Triangulations.FlipSupport: a raising weight is reported as ValueError, the only exception
  a weight can raise in this model (odd halving).
- Laminations.ShortenAsWritten does not state that the tracked complexity never grows. As
  written, the lamination it holds need not have the tracked complexity (see Findings).
- Laminations.Shorten keeps the identity move that `shorten` starts its conjugator with at
  the end of the conjugator. Its contract therefore speaks of the moves before that identity.
- `Fraction` values of `half` are Dafny reals. Weights elsewhere are integers.
- `__eq__` returning `NotImplemented` for other types is false, which is what Python's
  fallback identity comparison gives for distinct objects.
- Decorators: `hasattr`, `frozenset` and hashing are two flags (`argsHashable`,
  `kwargsHashable`). The wrapped function is a parameter (`computed`) giving what its call
  does.
- `__str__`, `__repr__` and `show`: string formatting, not modelled.
- Termination of `shorten` relies on the progress counter. Termination is proved with
  `decreases complexity, 3 - time`.
- Structures.UnionFind.Find/Union2/Union: an item not given to the constructor (KeyError at
  `self.parent[root]`) is excluded by `requires x in parent`.
- Laminations.EncodeTwist is built on the corrected Shorten: where `encode_twist` as written
  raises NameError for an empty support, it raises ValueError, and after a stale candidate it
  twists about the image under `best_h` rather than under `h`. The code as written is
  Laminations.EncodeTwistAsWritten (see Findings).
- Structures.UnionFind.Find states the group of every item unchanged through a ghost `rootOf`
  map. Walking the parent pointers is the ghost function `Root`, related by
  Structures.GroupIsWalk.

## Findings

| source | as written | input that shows it | evidently intended | confidence | as-written member | corrected member |
|---|---|---|---|---|---|---|
| bigger/lamination.py:65 | each round applies `h`, the candidate built for the last edge of the support, while it records `best_h` in the conjugator and `best_complexity` as the complexity | weight 3 on edge 0, 2 on edge 10, on a triangulation where every square is made of edge -1, iterated as 0 then 10: the round records the flip of 0 (complexity 2) but applies the flip of 10 (complexity 3) | apply `best_h`, so the lamination matches the conjugator and the tracked complexity | not executed | Laminations.StaleCandidate | Laminations.Shorten |
| bigger/lamination.py:53-65 | with an empty support `is_short` is false, the `for` loop never binds `h`, and `h(lamination)` raises UnboundLocalError | any finitely supported lamination with empty support | the ValueError of line 69 for a lamination that cannot be shortened | not executed | Laminations.ShortenAsWritten | Laminations.Shorten |
| bigger/lamination.py:83 | `encode_twist` calls `shorten` as written, so it inherits both defects above: an empty support raises NameError, and after a stale candidate the twist is taken about a lamination that is not the conjugator's image of the start | any finitely supported lamination with empty support | the ValueError of line 69, and a twist about the conjugator's image of the start | not executed | Laminations.EncodeTwistAsWritten | Laminations.EncodeTwist |
