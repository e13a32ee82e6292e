# lazygrid expansion engine in Dafny

lazygrid turns a rule document into a command-line array: a flat list of
argument strings, one per line, for grid-search style batch runs. Each rule
is an ordered mapping from keys to values. Expanding a rule starts from an
accumulator holding one empty string. Each key then replaces the accumulator
by "accumulator × contribution":

- a **list** value contributes literal tokens, or splices in earlier rules
  that the tokens name;
- an **ordered-mapping** value contributes one string per index of its
  evaluated sequences, paired index by index (a zip);
- a **null** value splices in the earlier rule named by the key.

`build_cmd` expands every rule after `all`, in document order, each against
the expansions of the rules before it. It then concatenates the expansions
that `all` names.

The model is pure and functional:

| file | module | what it holds |
|---|---|---|
| `model.dfy` | `Model` | value specs, rules, documents, the registry, the evaluator type, errors, `Result` |
| `text.dfy` | `Text` | Python's `str.strip()` and `str.strip(":")` |
| `zip.dfy` | `Zip` | the ordered-mapping branch: the do-while loop and its zip semantics |
| `expand.dfy` | `Expand` | `add_previous_rule_to_current_cmd`, the key step, `build_arguments_combinations_of_rule` |
| `expand_props.dfy` | `ExpandProps` | product shape of each key step, whole rules of list keys, empty-accumulator facts, one-key rules |
| `build.dfy` | `Build` | the registry fold, the concatenation for `all`, `build_cmd` |
| `build_props.dfy` | `BuildProps` | registry scope, order and length of the output, a worked document |

Each exception of the source is a `Model.Error` case carried by `Fail`:

- `KeyError` for a missing null reference becomes `UnknownRule(name, rule)`.
- The length `ValueError` becomes `LengthMismatch(found, expected)`.
- The `IndexError` on an empty first sequence becomes `IndexOutOfRange`.
- The other failures map to `NotImplemented`, `Unsupported`, `MissingAll`,
  `AllNotFirst` and `UndefinedTarget`.

The expression evaluator is a parameter of type `Evaluator`. It takes the
raw expression and the configuration identifier (the value substituted for
`{LAZYFILE}`) and returns the evaluated values as strings. The identifier is
passed explicitly instead of living in a global.

Where the code and its design description differ, the model follows the code:

- The list and ordered-mapping branches ignore the rule key. `--flag: [a, b]`
  yields `a` and `b`, not `--flag a` and `--flag b` (`BuildProps.FlagExample`).
- Splicing a referenced rule does not trim. A rule whose only key is a null
  reference to `A` yields A's lines each with a leading space
  (`ExpandProps.RefOnlyRule`), not A's lines unchanged.
- `strip(":")` removes colons from both ends, not only a trailing one.
- An empty ordered-mapping value contributes one string, `strip(cmd)`. The
  do-while body runs once with no sub-key, and `-1` as width ends the loop.
- The ordered-mapping branch only evaluates when the accumulator is
  non-empty. After an empty list, its errors never fire
  (`ExpandProps.EmptyStaysEmpty`).
- The check that `all` comes first is a Python `assert`. It is modelled as
  the error `AllNotFirst`.

Python assertions are assumed enabled. Under `python -O` the `assert` at
line 150 vanishes, and so does the one at line 103, which raises the length
`ValueError`. The model keeps both checks.

## Model

| member | source | states |
|---|---|---|
| `Text.TrimStart` | lazygridv2.py:78 | the left half of `strip` never lengthens its input |
| `Text.TrimEnd` | lazygridv2.py:78 | the right half of `strip` never lengthens its input |
| `Text.TrimStartSpec` | lazygridv2.py:72 | the left strip keeps a suffix, removes only stripped characters, and leaves none at the front |
| `Text.TrimEndSpec` | lazygridv2.py:72 | the right strip keeps a prefix, removes only stripped characters, and leaves none at the back |
| `Text.TrimSpec` | lazygridv2.py:111 | `strip` leaves neither end strippable, empties exactly the all-strippable strings, and keeps clean strings unchanged |
| `Text.Trim` | lazygridv2.py:72-78 | stripping never lengthens a string, and a string with no strippable character at either end is unchanged |
| `Text.Strip` | lazygridv2.py:78 | `strip()` never lengthens a string, and leaves one without surrounding whitespace unchanged |
| `Text.StripColons` | lazygridv2.py:72 | `strip(":")` never lengthens a string, and leaves one that neither starts nor ends with a colon unchanged |
| `Text.StripColonsBothEnds` | lazygridv2.py:72 | `name:`, `:name` and `:name:` all strip to `name` |
| `Text.StripLeadingSpace` | lazygridv2.py:78 | joining a token onto the empty seed and stripping gives the stripped token |
| `Expand.FanOut` | lazygridv2.py:51-55 | one output per referenced line, in order; output j is `cmd + " " + line j`, untrimmed |
| `Expand.Cross` | lazygridv2.py:70-71 | the outer loop over the accumulator: the first partial command's strings come first |
| `Expand.CrossResult` | lazygridv2.py:83-111 | the outer loop for a mapping value succeeds exactly when every partial command's contribution succeeds; the first one's strings then come first |
| `Expand.TokenContribution` | lazygridv2.py:72-78 | a token naming an earlier rule (colons stripped) fans out that rule's lines untrimmed; any other token gives exactly one trimmed string |
| `Expand.TokensContribution` | lazygridv2.py:71-78 | a token list yields, per partial command, the summed widths of its tokens |
| `Expand.Step` | lazygridv2.py:61-138 | a list never fails; a null value fails exactly when the key is unknown, with an error naming key and rule; a string raises not-implemented; any other value raises; an empty accumulator stays empty and a mapping is then not evaluated |
| `Expand.ExpandFrom` | lazygridv2.py:61-138 | the key loop never raises when every value is a list, and an empty accumulator stays empty |
| `Expand.ExpandRule` | lazygridv2.py:58-61 | a rule with no keys expands to exactly one empty string |
| `Zip.ZipRow` | lazygridv2.py:92-109 | the first sub-key fixes the width; a sub-key of another length raises the length error before any indexing |
| `Zip.ZipFrom` | lazygridv2.py:89-115 | the remaining do-while iterations yield one string per remaining index |
| `Zip.ZipContribution` | lazygridv2.py:83-115 | the do-while yields at least one string and as many as the first sequence has; an empty mapping yields `strip(cmd + " ")`; an empty first sequence raises the index error |
| `Zip.ZipRowUniform` | lazygridv2.py:92-109 | with equal lengths a row never fails and appends `k + " " + v_k[idx] + " "` for every sub-key in order |
| `Zip.ZipFromUniform` | lazygridv2.py:89-115 | with equal lengths iteration idx + j yields the trimmed join of the command with row idx + j |
| `Zip.ZipShape` | lazygridv2.py:83-115 | equal lengths w >= 1 give exactly w strings, the i-th pairing the i-th values of all sub-keys (zip, not product) |
| `Zip.ZipRowMismatch` | lazygridv2.py:99-106 | once the width is fixed, the first sub-key of another length raises the length error with both lengths |
| `Zip.ZipMismatch` | lazygridv2.py:99-108 | a sub-key whose length differs from the first's makes the mapping fail with that length error, for any command |
| `ExpandProps.CrossLength` | lazygridv2.py:70-71 | when each partial command yields m strings, the new accumulator has length \|acc\| * m |
| `ExpandProps.CrossBlock` | lazygridv2.py:70-71 | partial command i's strings form the i-th block of m strings |
| `ExpandProps.CrossShape` | lazygridv2.py:131-138 | the new accumulator is the product (`IsProduct`): length \|acc\| * m, block i equal to what element i yields, in accumulator order |
| `ExpandProps.CrossResultOk` | lazygridv2.py:83-115 | a mapping contribution that succeeds for every command gives the same product as an infallible one |
| `ExpandProps.CrossResultFails` | lazygridv2.py:83-106 | a contribution failing alike for every command fails the step once the accumulator is non-empty |
| `ExpandProps.TokensAppend` | lazygridv2.py:71-78 | the inner loop over two runs of tokens yields the first run's strings, then the second's |
| `ExpandProps.TokensSplit` | lazygridv2.py:71-78 | token k's strings sit between those of the tokens before it and those after it |
| `ExpandProps.StepTokensShape` | lazygridv2.py:69-78 | a list key never fails and gives \|acc\| * w strings, block i being what the tokens yield for element i |
| `ExpandProps.EmptyListEmpties` | lazygridv2.py:69-78 | an empty list value empties the accumulator |
| `ExpandProps.StepRefShape` | lazygridv2.py:122-132 | a null key naming a rule with m lines gives \|acc\| * m strings, block i being element i fanned out over those lines |
| `ExpandProps.StepZipShape` | lazygridv2.py:81-115 | a mapping key with equal lengths w >= 1 never fails and gives \|acc\| * w strings, block i being the w zipped strings of element i |
| `ExpandProps.StepZipMismatch` | lazygridv2.py:98-106 | a length mismatch fails the key step with the length error when the accumulator is non-empty |
| `ExpandProps.ExpandFromAppend` | lazygridv2.py:61-138 | the key loop over two runs of keys is the loop over the first, then the second from its result |
| `ExpandProps.LastListKey` | lazygridv2.py:61-138 | a list key after any keys that succeeded yields the product of their result (outer) with its tokens (inner) |
| `ExpandProps.ListRuleLength` | lazygridv2.py:61-138 | a rule of list keys never raises and yields \|acc\| times the product of the keys' widths |
| `ExpandProps.ListRuleProduct` | lazygridv2.py:61-138 | in a rule of list keys, each key k makes the product of the accumulator left by the keys before it with key k's tokens |
| `ExpandProps.TwoListKeys` | lazygridv2.py:59-140 | a two-key list rule yields n * m strings: the first key's n strings in order, each followed through the second key's m strings |
| `ExpandProps.EmptyStaysEmpty` | lazygridv2.py:61-138 | from an empty accumulator the rest of the rule yields nothing, and fails only by a missing reference or an unsupported value |
| `ExpandProps.EmptyListAnywhere` | lazygridv2.py:61-140 | a rule with an empty list value anywhere expands to nothing unless it raises |
| `ExpandProps.CrossSingle` | lazygridv2.py:70-71 | a one-element accumulator yields just that element's strings |
| `ExpandProps.ExpandSingle` | lazygridv2.py:59-140 | a one-key rule is that key's step applied to the seed `[""]` |
| `ExpandProps.RefOnlyRule` | lazygridv2.py:122-132 | a rule whose only key is a null reference to A yields A's lines each with a leading space, or the lookup error naming A and the rule |
| `ExpandProps.LiteralOnlyRule` | lazygridv2.py:69-78 | a single list key of literal tokens yields the stripped tokens in order, whatever the key |
| `ExpandProps.LiteralTokens` | lazygridv2.py:71-78 | literal tokens contribute one trimmed join each, in token order |
| `Build.RegistryOf` | lazygridv2.py:152-158 | the registry after the loop holds exactly the names of the rules processed |
| `Build.Gather` | lazygridv2.py:160-161 | the concatenation succeeds exactly when every named rule exists; otherwise it raises naming a missing rule |
| `Build.BuildCmd` | lazygridv2.py:143-150 | a document without `all` raises the missing-rule error; an `all` that is not first fails the assertion; success implies `all` is first |
| `BuildProps.GatherAppend` | lazygridv2.py:160-161 | the output for two runs of names is the concatenation of their outputs, and an earlier failure wins |
| `BuildProps.GatherLength` | lazygridv2.py:160-161 | the output length is the sum of the named expansions' lengths |
| `BuildProps.GatherPlacesEach` | lazygridv2.py:160-161 | the k-th named expansion appears whole, right after the expansions named before it |
| `BuildProps.RegistryLast` | lazygridv2.py:154-158 | the registry after a rule is the registry before it, updated with that rule's expansion against it |
| `BuildProps.RegistryEntry` | lazygridv2.py:153-158 | each rule is expanded against the registry of exactly the rules before it, and the registry keeps that result |
| `BuildProps.RegistryEntryUnshadowed` | lazygridv2.py:153-158 | a rule whose name no later rule reuses is expanded against the registry of the rules before it, and the final registry keeps that result |
| `BuildProps.RegistryFails` | lazygridv2.py:154-158 | the first rule whose expansion raises makes the loop raise that same exception |
| `BuildProps.RegistryScope` | lazygridv2.py:152-157 | the registry a rule sees holds every earlier rule and never the rule itself or a later one |
| `BuildProps.BuildOutput` | lazygridv2.py:152-163 | with `all` first, a failing registry loop fails the build with the loop's exception; otherwise the output is the in-order concatenation for `all`'s keys, as long as their total |
| `BuildProps.BuildFailsAt` | lazygridv2.py:150-158 | with `all` first, the first rule after it whose expansion raises makes the build raise that rule's exception |
| `BuildProps.FlagExample` | lazygridv2.py:143-163 | `all: {r1: null}`, `r1: {--flag: [a, b]}` builds `["a", "b"]` |

## Left out

- `ordered_load` (YAML parsing through PyYAML) is external. Documents and rule contents are given as ordered association lists.
- `main` is left out: docopt parsing, path normalisation, the `LAZYFILENAME` derivation, file reading and printing are I/O.
- `eval` and `str.format(LAZYFILE=...)` are an abstract, deterministic `Evaluator` parameter returning strings. Evaluation errors, non-indexable results, non-determinism through `random`, and `str()` of values are not modelled.
- Python type-dispatch corners outside the listed branches are not modelled. These include non-string list tokens, non-string sub-keys, `all` mapping to something other than a mapping, and rule contents that are not mappings.
- Duplicate names in a document cannot come out of an ordered mapping. The lemmas that depend on this require `DistinctNames`; the build itself does not.
- The registry is an unordered map. The source's dict is only ever looked up, never iterated.
- `Text.TrimStart`, `Text.TrimEnd`: their own contracts state only the length bound, because stronger contracts slow every proof that mentions `strip`. The full characterisation is `Text.TrimStartSpec` and `Text.TrimEndSpec`.
- `Expand.TokensContribution`: its contract gives only the width. The order is stated by `ExpandProps.TokensSplit`, and the contents by `Expand.TokenContribution` per token and `ExpandProps.LiteralTokens` for literal tokens.
- `Text.Trim`, `Text.Strip`, `Text.StripColons`: their own contracts state only the length bound and that clean strings are unchanged. The full characterisation is `Text.TrimSpec`.
- `Expand.Cross`, `Expand.CrossResult`: their own contracts state only that the first element's strings come first, and for `CrossResult` when it succeeds. The full product shape is `ExpandProps.CrossShape`, `ExpandProps.CrossResultOk` and `ExpandProps.CrossResultFails`.
- `Expand.ExpandFrom`: its contract states only that list-only rules succeed and that an empty accumulator stays empty. Its composition is `ExpandProps.ExpandFromAppend`, and the product for list keys is `ExpandProps.ListRuleLength` and `ExpandProps.ListRuleProduct`.
- `Zip.ZipFrom`: its contract gives only the count; the contents are stated by `Zip.ZipFromUniform`.
- `Build.RegistryOf`: its contract gives only the key set; the values are stated by `BuildProps.RegistryEntry`.
- `Build.BuildCmd`: its contract covers the structural errors; the output is stated by `BuildProps.BuildOutput`.
