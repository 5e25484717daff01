# rpi_cmdline_config in Dafny

A model of the token core of `rpi_cmdline_config`, an Ansible module that
edits the one-line Raspberry Pi kernel command line `/boot/cmdline.txt`.
The line is a sequence of whitespace-separated fragments. Each fragment
is either an atom (`rootwait`) or `key=value,value,...`; only the first `=`
in a fragment separates the key, so `root=PARTUUID=0f6fe73a-02` has key
`root` and the single value `PARTUUID=0f6fe73a-02`.

The model has four modules:

- `Text` (text.dfy) models the Python string operations the core relies on.
  `Words` is `str.split()`, with Python's exact `str.isspace` character set.
  `SplitOn` is `str.split(sep)` for one character. `JoinWith` is `sep.join`.
  `Strip` is `str.strip()`. `Normalize` collapses every whitespace run to one
  space and trims both ends.
- `Tokens` (tokens.dfy) models the token datatype, `tokenize` (`Tokenize`),
  `to_string` (`ToString`) and `has_param` (`HasParam`). It proves both round
  trips:
  - printing a parsed line gives the line in normalised form;
  - parsing the printed form of well-formed tokens gives the tokens back.
- `Params` (params.dfy) models `add_param`. `ParamList` is the token list
  that `add_param` edits in place. Its method `AddParam` is proved against
  the specification function `AddParamSpec`. It has two parts:
  - the merge loop, `MergeAll`, which uses `MergeInto` for the inner loop;
  - the placement, which searches for the last matching key from the end.

  `ReversalAgrees` proves that this search agrees with the source's
  reverse / insert / reverse placement (`AfterByReversal`). The lemmas
  cover the merge (`MergeValuesSpec`), insertion, presence of the key
  afterwards, and idempotence of a repeated unique call.
- `Scenarios` (scenarios.dfy) holds the repository's test fixtures
  (tests/conftest.py) and, as lemmas about the model, the `add_param`
  calls of the tests that use `after`: `test_param_presence`,
  `test_uniqueness`, `test_atom_uniqueness`, `test_atom_non_uniqueness`,
  `test_non_uniqueness`, `test_after` and `test_add_modules_load`.

The merge is partial in the source. Suppose `unique` is set, a token with
`key` is an atom (its value is `None`), and at least one value is being
added. Then `value not in pair['value']` raises a `TypeError`
(rpi_cmdline_config.py:91), and `run_module` does not catch it. The model
states this case as `MergeFails`, and `AddParamSpec` / `AddParam` require
that it does not happen.

Two points are settled by the code, not by the module's documentation or
its tests:

- When several tokens share the key, a unique merge changes every one of
  them, because the loop at rpi_cmdline_config.py:88-92 visits all tokens.
  The `DOCUMENTATION` string (rpi_cmdline_config.py:27) says only that
  values are added "to an existing key".
- There is no `before` option. It appears only in the tests
  (tests/test_rpi_cmdline_config.py:108-115 and 127-142), which call it
  through a `KernelParams` class. Neither exists in rpi_cmdline_config.py.

## Model

| member | source | states |
|---|---|---|
| Text.FirstIndex | rpi_cmdline_config/rpi_cmdline_config.py:75 | the split point of `split("=", 1)`: the first `=`, or the length when there is none; no earlier character is `=` |
| Text.SplitOn | rpi_cmdline_config/rpi_cmdline_config.py:79 | `split(",")` yields at least one piece, and no piece contains the separator |
| Text.JoinSplit | rpi_cmdline_config/rpi_cmdline_config.py:79 | joining the pieces of `split(",")` with `,` gives the text back |
| Text.SplitJoin | rpi_cmdline_config/rpi_cmdline_config.py:123 | splitting a `,`-join of separator-free pieces gives the pieces back |
| Text.Words | rpi_cmdline_config/rpi_cmdline_config.py:72 | every fragment of `split()` is non-empty and free of whitespace |
| Text.WordsBlank | rpi_cmdline_config/rpi_cmdline_config.py:72 | `split()` yields no fragment exactly when the line is all whitespace |
| Text.WordsOfJoin | rpi_cmdline_config/rpi_cmdline_config.py:72 | `split()` of whitespace-free fragments joined by single spaces gives the fragments back |
| Text.TrimStart | rpi_cmdline_config/rpi_cmdline_config.py:126 | the left half of `strip()` keeps a suffix that does not start with whitespace, and drops at least one character when the text starts with whitespace |
| Text.TrimStartSuffix | rpi_cmdline_config/rpi_cmdline_config.py:126 | what the left half of `strip()` drops is all whitespace, and what it keeps is a suffix |
| Text.TrimEnd | rpi_cmdline_config/rpi_cmdline_config.py:126 | the right half of `strip()` keeps a prefix that does not end in whitespace and drops only whitespace |
| Text.StripPadded | rpi_cmdline_config/rpi_cmdline_config.py:126 | `strip()` removes exactly the whitespace padding around a text whose ends are not whitespace |
| Text.NormalizeWords | rpi_cmdline_config/rpi_cmdline_config.py:72 | collapsing whitespace runs and trimming gives the `split()` fragments joined by single spaces |
| Text.NormalizeSingleSpaced | rpi_cmdline_config/rpi_cmdline_config.py:126 | a line that is already single-spaced and trimmed is its own normalisation |
| Tokens.ParseFragment | rpi_cmdline_config/rpi_cmdline_config.py:75-80 | a fragment is an atom exactly when it has no `=`, and an atom keeps the whole fragment as its key; otherwise the key is the text before the first `=`, and there is at least one value |
| Tokens.RenderParse | rpi_cmdline_config/rpi_cmdline_config.py:75-80 | printing a parsed fragment gives the fragment back |
| Tokens.ParseRender | rpi_cmdline_config/rpi_cmdline_config.py:120-123 | parsing the printed form of a well-formed token gives the token back |
| Tokens.ParseWellFormed | rpi_cmdline_config/rpi_cmdline_config.py:75-80 | every `split()` fragment parses to a well-formed token |
| Tokens.TokenizeFragments | rpi_cmdline_config/rpi_cmdline_config.py:71-81 | `tokenize` makes one token per fragment, in order and without deduplication, and each token prints as its fragment |
| Tokens.TokenizeWellFormed | rpi_cmdline_config/rpi_cmdline_config.py:71-81 | every token that `tokenize` produces is well formed |
| Tokens.TokenizeBlank | rpi_cmdline_config/rpi_cmdline_config.py:71-81 | `tokenize` returns no token exactly for an empty or blank line |
| Tokens.HasParam | rpi_cmdline_config/rpi_cmdline_config.py:108-112 | `has_param` is true exactly when some token has the key |
| Tokens.ToStringJoin | rpi_cmdline_config/rpi_cmdline_config.py:115-126 | `to_string` joins the printed tokens with single spaces when the first does not start, and the last does not end, with whitespace; an empty list prints as the empty text |
| Tokens.ToStringWellFormed | rpi_cmdline_config/rpi_cmdline_config.py:115-126 | well-formed tokens print as their printed forms joined by single spaces, and each printed form is non-empty and free of whitespace |
| Tokens.RoundTrip | rpi_cmdline_config/rpi_cmdline_config.py:115-126 | `to_string(tokenize(line))` is the line with its whitespace runs collapsed to one space and its ends trimmed |
| Tokens.RoundTripExact | rpi_cmdline_config/rpi_cmdline_config.py:115-126 | a single-spaced line is printed back exactly |
| Tokens.ParseRoundTrip | rpi_cmdline_config/rpi_cmdline_config.py:71-81 | `tokenize(to_string(ts))` is `ts` for well-formed tokens |
| Params.MergeValuesSpec | rpi_cmdline_config/rpi_cmdline_config.py:89-92 | the inner merge keeps the old values as a prefix. Afterwards the list holds exactly the old values and the new ones. Each appended value is new, the appended values come once each in the order they first appear among the new values, and a list without duplicates stays without duplicates |
| Params.MergeValuesHeld | rpi_cmdline_config/rpi_cmdline_config.py:89-92 | merging values that are all present already changes nothing |
| Params.MergeValuesIdempotent | rpi_cmdline_config/rpi_cmdline_config.py:89-92 | merging the same values twice is the same as merging them once |
| Params.MergeInto | rpi_cmdline_config/rpi_cmdline_config.py:90-92 | the inner loop computes the merge specified by MergeValues |
| Params.LastKeyIndex | rpi_cmdline_config/rpi_cmdline_config.py:97-104 | the index of the last token with the key, or -1; no later token has the key |
| Params.FindLastKey | rpi_cmdline_config/rpi_cmdline_config.py:97-104 | the backward scan returns the last index with the key, or -1; no later token has the key |
| Params.InsertionPoint | rpi_cmdline_config/rpi_cmdline_config.py:93-104 | the new token goes right after the last token whose key is `after`, or at the end when `after` is absent or matches no token |
| Params.FirstKeyIndex | rpi_cmdline_config/rpi_cmdline_config.py:98-99 | the forward scan of the reversed list finds the first token with the key, or reaches the end |
| Params.ReverseInsert | rpi_cmdline_config/rpi_cmdline_config.py:100-101 | reversing, inserting at `i` and reversing back inserts at `n - i` |
| Params.FirstOfReverse | rpi_cmdline_config/rpi_cmdline_config.py:97-104 | the first match in the reversed list is the last match in the list |
| Params.ReverseReverse | rpi_cmdline_config/rpi_cmdline_config.py:97-101 | reversing twice gives the list back, as the second `reverse()` undoes the first |
| Params.ReversalFound | rpi_cmdline_config/rpi_cmdline_config.py:97-102 | with a match, reverse / insert before the first match / reverse back inserts right after the last token with the key |
| Params.ReversalMissing | rpi_cmdline_config/rpi_cmdline_config.py:103-104 | without a match, reverse back and append puts the token at the end, which is InsertionPoint |
| Params.ReversalAgrees | rpi_cmdline_config/rpi_cmdline_config.py:97-104 | reverse / insert before the first match / reverse back, or reverse back and append, places the token at InsertionPoint |
| Params.AddParamMerge | rpi_cmdline_config/rpi_cmdline_config.py:87-92 | a unique merge into a present key keeps the length, the order and every key. Tokens with other keys are unchanged. Each matching token with values gets the merged list, and a matching atom is left alone |
| Params.AddParamAtomNoop | rpi_cmdline_config/rpi_cmdline_config.py:87-92 | a unique atom, or an empty value list, for a key already present leaves the list as it was |
| Params.AddParamInsert | rpi_cmdline_config/rpi_cmdline_config.py:93-104 | when no unique merge applies, the call cannot fail and the list grows by exactly the new token at the insertion point. The old tokens keep their order around it, the token before it has key `after`, and no later token does |
| Params.AddParamHasKey | rpi_cmdline_config/rpi_cmdline_config.py:84-105 | after `add_param` the key is present |
| Params.AddParamIdempotent | rpi_cmdline_config/rpi_cmdline_config.py:84-105 | with `unique`, repeating the same call cannot fail and changes nothing |
| Params.ParamList.constructor | rpi_cmdline_config/rpi_cmdline_config.py:84 | the list holds the given tokens |
| Params.ParamList.MergeAll | rpi_cmdline_config/rpi_cmdline_config.py:88-92 | the outer loop gives every token with the key its merged value list and changes nothing else |
| Params.ParamList.AddParam | rpi_cmdline_config/rpi_cmdline_config.py:84-105 | the in-place edit leaves the list equal to AddParamSpec of the old list |
| Scenarios.DefaultWellFormed | tests/conftest.py:9-35 | every token of the default fixture list is one that `tokenize` can produce |
| Scenarios.FixtureRenders | tests/conftest.py:5 | the default tokens print as the fragments of the default line |
| Scenarios.DefaultRoundTrip | tests/test_rpi_cmdline_config.py:7-16 | the default tokens print as the default fragments joined by single spaces, and that line parses back to the default tokens |
| Scenarios.AfterRoot | tests/test_rpi_cmdline_config.py:26-33 | `testKey=testVal` after `root` is inserted at index 3 |
| Scenarios.FirstModulesLoad | tests/test_rpi_cmdline_config.py:36-38 | the first unique `modules-load=dwc2` after `rootwait` is appended |
| Scenarios.Uniqueness | tests/test_rpi_cmdline_config.py:36-44 | a second unique call merges `g_ether` into the `modules-load` token, which then holds both values |
| Scenarios.AtomUniqueness | tests/test_rpi_cmdline_config.py:47-59 | a unique `modules-load` atom after `rootwait` is added once, at the end |
| Scenarios.AtomNonUniqueness | tests/test_rpi_cmdline_config.py:62-81 | two non-unique `modules-load` atoms are both kept |
| Scenarios.NonUniqueness | tests/test_rpi_cmdline_config.py:84-105 | two non-unique calls make two `modules-load` tokens with one value each |
| Scenarios.AppendOne | rpi_cmdline_config/rpi_cmdline_config.py:115-126 | appending a well-formed token adds one space and its printed form at the end of the printed line |
| Scenarios.PrintedLast | rpi_cmdline_config/rpi_cmdline_config.py:97-104 | a new key placed after the last token's key is printed last |
| Scenarios.QuietAfterRootwait | tests/test_rpi_cmdline_config.py:118-124 | `quiet` after `rootwait` becomes the last token |
| Scenarios.ModulesAfterRootwait | tests/test_rpi_cmdline_config.py:154-162 | `modules-load=dwc2,g_ether` after `rootwait` becomes the last token |
| Scenarios.EmptyValueList | rpi_cmdline_config/rpi_cmdline_config.py:122-123 | an empty value list prints as `key=`, which parses back as one empty value |

## Left out

- `run_module` and `main` (rpi_cmdline_config.py:129-209) are left out. They cover Ansible argument validation, reading and writing the file, the trailing newline, and the `changed` flag. This is glue around the core, with file I/O.
- The `DOCUMENTATION`, `EXAMPLES` and `RETURN` strings are not modelled, because they are data for Ansible.
- The third branch of `to_string` (rpi_cmdline_config.py:124-125) prints a value that is neither `None` nor a list. `tokenize` and `add_param` never produce such a value, so `Value` has no case for it.
- Params.AddParamSpec: the `TypeError` raised when a unique merge reaches an atom is a precondition (`MergeFails`), not an error result. The values the loop appended to earlier tokens before the exception are therefore not modelled.
- Params.ParamList.AddParam: Python lists are shared by reference, and the model does not capture this aliasing. A token created by `add_param` holds the caller's `values` list itself, so a later merge also changes the caller's list. The model treats value lists as values.
- Params.ParamList.AddParam: the source returns the list it edited. The model has no such return value, because the returned list is the edited list itself.
- The `before` option and the `KernelParams` class used by the tests do not exist in rpi_cmdline_config.py, so they are not modelled. This also leaves out the tests at tests/test_rpi_cmdline_config.py:108-115 and 127-142.
- Scenarios.DefaultRoundTrip: the fixture line is stated as its six fragments joined by single spaces, not compared character by character with the 102-character literal.
- Character classes follow Python's `str.isspace`, written out as a fixed list of code points. Unicode database versions, surrogates and encodings are not modelled.
