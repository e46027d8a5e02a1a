# Parameter initializers of allennlp, modelled in Dafny

This project models `allennlp/nn/initializers.py`. That file holds the code that picks and applies weight initializers to the parameters of a neural-network module. It has three parts:

- **`block_orthogonal`** splits a tensor into a grid of axis-aligned blocks and initialises each block separately. First it checks that every paired dimension is divisible by its split size. Then it builds the start offsets `0, split, 2*split, …` for each dimension and visits their Cartesian product in lexicographic order. Each block is written in place, once.
- **`InitializerApplicator.__call__`** takes the module's named parameters in order. Each parameter goes to the first `(pattern, initializer)` pair whose pattern is found in its name. Parameters that no pattern finds are reported as uninitialised. Patterns that were never the chosen match are reported as unused.
- **Construction from configuration.** A fixed registry maps twelve names to numeric routines. `Initializer.from_params` reads a bare name, or an object with a `type` key plus keyword arguments. `InitializerApplicator.from_params` converts a configuration list entry by entry, in order.

Files:

- `checks.dfy`: the errors raised on the modelled paths, plus the `Result`, `Outcome` and `Option` types returned instead of raising.
- `config.dfy`: the registry and both `from_params` functions.
- `block_orthogonal.dfy`: the divisibility test, offsets, Cartesian product and the `Tensor` class. Its per-cell write counters are stored in row-major order. `BlockOrthogonalInit` writes the blocks in place.
- `applicator.dfy`: first-match dispatch as specification functions, the `Module` class, and `InitializerApplicator` with its `Apply` method.

Behaviour of the code worth noting, which the model follows:

- The docstring of `block_orthogonal` (initializers.py:55-57) asks for one split size per dimension, but nothing checks the length. The code `zip`s sizes with split sizes, so only the shorter list's length of leading dimensions is split. The rest are left whole by the slice (`Paired`).
- The only error the routine raises itself is the ConfigurationError "tensor dimensions must be divisible by their respective split_sizes" (initializers.py:70-71). A split size of 0 instead raises Python's ZeroDivisionError from `size % 0`. The whole remainder list is built before `any` reads it, so a zero anywhere wins over an indivisible pair.
- A negative split size that divides its size passes the test. `range(0, size, split)` is then empty, so no block is written and no error is raised.
- The warning "Did not use initialization regex that was passed" (initializers.py:162) is logged for every pattern that was never the chosen first match, because a pattern is only discarded when its pair is applied. A pattern shadowed by an earlier matching pattern is therefore reported, even though it matches some parameter name.

Dafny's `%` is Euclidean and Python's is floored. For a non-zero divisor both are zero exactly when the divisor divides, so the divisibility test uses Dafny's `%` directly.

## Model

| member | source | states |
|---|---|---|
| `BlockOrthogonal.Paired` | allennlp/nn/initializers.py:69 | `zip(sizes, split_sizes)` pairs up as many dimensions as the shorter list has |
| `BlockOrthogonal.ZeroSplitFrom` | allennlp/nn/initializers.py:69 | the scan of the pairs finds a zero split size exactly when one exists among the remaining pairs |
| `BlockOrthogonal.IndivisibleFrom` | allennlp/nn/initializers.py:69 | the scan finds a non-zero split size that does not divide its size exactly when such a pair exists |
| `BlockOrthogonal.SplitCheck` | allennlp/nn/initializers.py:68-71 | passes exactly when every paired split size is non-zero and divides its size; fails with ZeroDivisionError exactly when some paired split size is 0; otherwise fails with the configuration error that carries both lists |
| `BlockOrthogonal.Tensor.AssignBlock` | allennlp/nn/initializers.py:84-86 | slice assignment: every cell inside `[start_d, start_d + split_d)` in each sliced dimension is written once more, and no other cell is touched |
| `BlockOrthogonal.BlockOrthogonalInit` | allennlp/nn/initializers.py:68-86 | the outcome is the divisibility test; on failure no cell is written; on success each cell is written as many times as blocks contain it, so with positive split sizes every cell exactly once, and with a negative split size no cell at all |
| `BlockOrthogonal.Range` | allennlp/nn/initializers.py:72 | `range(start, stop, step)` with a positive step is empty exactly when `stop <= start`, and every element lies in `[start, stop)` |
| `BlockOrthogonal.RangeAt` | allennlp/nn/initializers.py:72 | `range(s, s + n*step, step)` has `n` elements, the `j`-th being `s + j*step` |
| `BlockOrthogonal.Offsets` | allennlp/nn/initializers.py:72-73 | the block starts along one dimension lie inside it, and there are none exactly when the dimension is empty or its split size is not positive |
| `BlockOrthogonal.Indexes` | allennlp/nn/initializers.py:72-73 | there is one offset list per paired dimension, and a list is empty exactly when its dimension is empty or its split size is not positive |
| `BlockOrthogonal.OffsetsAreMultiples` | allennlp/nn/initializers.py:72-73 | when the split divides the size, the offsets along a dimension are exactly `j*split` for `j < size/split`, and each block ends inside the dimension |
| `BlockOrthogonal.RangeCoversOnce` | allennlp/nn/initializers.py:72-73 | along one dimension, each point of the range lies in exactly one interval `[offset, offset + step)` |
| `BlockOrthogonal.Prepend` | allennlp/nn/initializers.py:75 | putting one element in front of every tuple keeps the number and order of the tuples |
| `BlockOrthogonal.Extend` | allennlp/nn/initializers.py:75 | combining a list of first elements with a list of tuples is empty exactly when either list is |
| `BlockOrthogonal.ExtendLength` | allennlp/nn/initializers.py:75 | that combination has one tuple per (first element, tuple) pair |
| `BlockOrthogonal.Product` | allennlp/nn/initializers.py:75 | `itertools.product(*lists)` is empty exactly when one of the lists is empty |
| `BlockOrthogonal.BlockStarts` | allennlp/nn/initializers.py:72-75 | there is no block exactly when some paired dimension is empty or has a split size that is not positive, so a negative split size that passes the test writes nothing |
| `BlockOrthogonal.ProductMember` | allennlp/nn/initializers.py:75 | every tuple of `itertools.product(*lists)` has one element per list, the `d`-th taken from the `d`-th list |
| `BlockOrthogonal.NumberOfBlocks` | allennlp/nn/initializers.py:72-75 | when the test passes with positive split sizes, there are `∏ size_d / split_d` blocks |
| `BlockOrthogonal.BlocksInLexOrder` | allennlp/nn/initializers.py:75 | the block starts are visited in strictly increasing lexicographic order, so no block is visited twice |
| `BlockOrthogonal.BlockWithinBounds` | allennlp/nn/initializers.py:78-86 | each block starts at a multiple of the split size in every paired dimension and ends no later than the tensor does |
| `BlockOrthogonal.InBlock` | allennlp/nn/initializers.py:78-85 | a cell lies in a block only when every sliced dimension has a positive width; with no sliced dimension the block is the whole tensor |
| `BlockOrthogonal.Tensor.constructor` | allennlp/nn/initializers.py:42-44 | a fresh tensor of the given shape has one cell per element of the shape's volume, none of them written yet |
| `BlockOrthogonal.CoveredExactlyOnce` | allennlp/nn/initializers.py:72-86 | with positive split sizes, every cell of the tensor lies in exactly one block |
| `BlockOrthogonal.BlocksDisjoint` | allennlp/nn/initializers.py:84-86 | two different blocks share no cell of the tensor |
| `BlockOrthogonal.UnflattenFlatten` | allennlp/nn/initializers.py:86 | the row-major position of a cell leads back to that cell, so the write counters of the model are in one-to-one correspondence with the tensor's cells |
| `BlockOrthogonal.FlattenUnflatten` | allennlp/nn/initializers.py:86 | the cell at a row-major position flattens back to that position |
| `Applicator.FirstMatch` | allennlp/nn/initializers.py:153-158 | the chosen pair's pattern is found in the name and no earlier pattern is; nothing is chosen exactly when no pattern is found |
| `Applicator.FirstMatchIndex` | allennlp/nn/initializers.py:153-159 | the inner loop stops at the first pattern found in the name, and runs to the end, the `else` branch, exactly when no pattern is found |
| `Applicator.PatternsSpec` | allennlp/nn/initializers.py:149 | the initial `unused_regexes` set holds every configured pattern and nothing else, each once, so it has at most as many elements as there are pairs |
| `Applicator.Unused` | allennlp/nn/initializers.py:149-161 | the unused patterns are configured patterns, and with no parameters every configured pattern is unused |
| `Applicator.Module.constructor` | allennlp/nn/initializers.py:152 | a module holds its parameter names in `named_parameters()` order, with nothing applied to any parameter yet |
| `Applicator.Module.Initialize` | allennlp/nn/initializers.py:156 | applying pair `j`'s initializer to parameter `p` records `j` on that parameter and changes no other parameter |
| `Applicator.FirstMatchWins` | allennlp/nn/initializers.py:153-158 | when two patterns are found in a name, the later one is never applied, and the one chosen is at or before the earlier |
| `Applicator.AtMostOnce` | allennlp/nn/initializers.py:153-160 | each parameter is initialised at most once, and exactly once when some pattern is found in its name |
| `Applicator.UninitializedSpec` | allennlp/nn/initializers.py:150-160 | the uninitialised set holds exactly the parameter names in which no pattern is found |
| `Applicator.ChosenPatternsSpec` | allennlp/nn/initializers.py:149-157 | the patterns removed from the unused set are exactly the patterns of the pairs chosen as some parameter's first match |
| `Applicator.UnusedIffNeverChosen` | allennlp/nn/initializers.py:149-162 | a configured pattern is reported unused exactly when no parameter's first match has it as its pattern |
| `Applicator.ShadowedPatternUnused` | allennlp/nn/initializers.py:149-162 | a pattern listed once, all of whose names an earlier pattern also finds, is reported unused |
| `Applicator.NoInitializers` | allennlp/nn/initializers.py:136-160 | with no pairs, nothing is initialised, every parameter name is uninitialised and no pattern is unused |
| `Applicator.InitializerApplicator.constructor` | allennlp/nn/initializers.py:127-136 | no list (or an empty one) gives an applicator with no pairs; a list is kept in order |
| `Applicator.InitializerApplicator.Apply` | allennlp/nn/initializers.py:138-166 | each parameter gets exactly the initializer of its first matching pair appended to what was applied before, or nothing; the returned sets are the unused patterns and the uninitialised names |
| `Applicator.InitializerApplicator.FromParams` | allennlp/nn/initializers.py:168-198 | succeeds exactly when every entry builds, giving a fresh applicator holding the converted list; otherwise fails with the first entry's error |
| `Config.NameOf` | allennlp/nn/initializers.py:105-118 | every routine is registered under its name |
| `Config.NameOfInvertsRegistry` | allennlp/nn/initializers.py:105-118 | no two names are registered for the same routine, so a routine's name is the key it was looked up by |
| `Config.ByName` | allennlp/nn/initializers.py:36 | lookup succeeds exactly for registered names, giving the routine registered under that name; otherwise it is a configuration error naming the name |
| `Config.PopType` | allennlp/nn/initializers.py:38 | the `type` entry succeeds exactly when it is a registered name; a missing `type` is the missing-key configuration error, and a `type` that is unregistered or not a string is the unknown-initializer configuration error naming it |
| `Config.InitializerFromParams` | allennlp/nn/initializers.py:33-39 | a bare name builds its routine with no keyword arguments, exactly when it is registered; an object builds the routine named by `type`, with every other entry as a keyword argument, and otherwise fails with the configuration error of its `type` entry |
| `Config.ParamsRoundTrip` | allennlp/nn/initializers.py:33-39 | writing an initializer out as a configuration object and reading it back gives the same initializer |
| `Config.NameRoundTrip` | allennlp/nn/initializers.py:35-36 | reading a routine's registered name gives that routine with no arguments |
| `Config.UnknownNameRejected` | allennlp/nn/initializers.py:36 | `"not_a_real_name"` builds nothing and is a configuration error |
| `Config.ApplicatorFromParams` | allennlp/nn/initializers.py:197 | succeeds exactly when every entry builds; the result keeps the entries' order and patterns, with each entry's initializer; on failure the error is that of the first entry that fails |

## Left out

- The numeric routines (`torch.nn.init.orthogonal`, `normal`, `xavier_*`, `kaiming_*`, `sparse`, …) are floating-point and random-number code in a foreign library. Writing a block, or applying an initializer, leaves only an opaque mark.
- `BlockOrthogonal.BlockOrthogonalInit`: states which cells are written and how often, not that each block ends up orthogonal. The `gain` argument only scales that numeric result, so it is not modelled.
- `BlockOrthogonal.BlockOrthogonalInit`: the `Variable` unwrapping, the tensor it then returns, and the `.contiguous()` copy are tensor plumbing and are not modelled.
- `Applicator.InitializerApplicator.Apply`: records on each parameter the position of the pair whose initializer was applied, not the initializer's effect on the parameter's values.
- The regular-expression engine behind `re.search` is not modelled. It is passed to `Apply` as a predicate on (pattern, name).
- Logging is informational output only and is left out. `Apply` returns the unused and uninitialised sets, which the source only logs.
- `module.named_parameters()` is a collaborator from the tensor library. The parameter names it yields are the fields of `Module`.
- `Registrable.by_name`, `Params.pop_choice` and `Params.as_dict` are not part of this model. `Config.ByName` and `Config.PopType` assume their documented behaviour: an unregistered name, or a missing `type` key, is a configuration error. Names registered by other code are not modelled; the registry is the fixed table of twelve names.
- The abstract `Initializer.__call__` (which raises NotImplementedError) and the wrapper's `__repr__` have no behaviour to model.
- Errors raised by the numeric routines themselves, such as `block_orthogonal` built from configuration without `split_sizes`, are not modelled. Such an error only arises when the routine is called.
- Configuration values other than strings are kept as their literal text, because they are only forwarded. Configuration values that are floats are not interpreted.
