# typedoc-plugin-deno: a verified model of the comment rewriter

The `deno` plugin registers with TypeDoc's converter. It rewrites the
documentation comment of each declaration and signature reflection as that
reflection is created. This project models that rewriting in Dafny:

- **`removeTags`** deletes, in place, every tag with a given name.
- **`isEmptyComment`** decides whether a comment has nothing left in it.
- **`onDeclaration`** does four things:
  - it trims line feeds off the comment text;
  - it takes a translation tag and splits its trimmed text at the first line feed into `shortText_i18n` and `text_i18n`;
  - it removes every `_i18n` tag;
  - it detaches the comment from its reflection when the comment has become empty.
- **`onSignature`** runs `onDeclaration`. It then sweeps the tag list once. A tag directly followed by its companion `<name>_i18n` takes that companion's text, with the first occurrence of the tag's parameter name removed and whitespace trimmed, as its `text_i18n`. The companion is then spliced out.

The model has four modules:

- `Wrappers` (`wrappers.dfy`): the `Option` type, for JavaScript properties that may be `undefined`.
- `Strings` (`strings.dfy`): the string built-ins the plugin calls. These are lodash `trim(s, chars)` and `String.prototype.trim`, `indexOf`, `replace` with a string pattern, and the `substr` split.
- `Tags` (`tags.dfy`): the `Tag` record, plus pure functions on the ordered tag list:
  - `Without`: the effect of `removeTags`;
  - `Reconcile`: the companion sweep;
  - `FindWith`: `Array.prototype.find` with a callback that may change the tag it is given.
- `DenoPlugin` (`plugin.dfy`): the `Comment` and `Reflection` objects the handlers update in place.
  - Each handler is a method whose postcondition ties the new state to a function of the old state: `Without`, `Reconcile` or `DeclarationEffect`.
  - The plugin's promises are lemmas about those functions.

The code at line 92 of `typedoc-plugin-deno.ts` is modelled exactly as written: `comment.tags.find((x) => (x.tagName = '_i18n'))`. The callback assigns the name rather than comparing it. So `find` stops at the first tag, renames that tag to `_i18n` and returns it. The corrected comparison is modelled next to it; see "## Findings".

`onSignature` reads `reflection.comment.tags` right after calling `onDeclaration`, at line 63. At that point the comment may already be detached. The model makes this explicit: `OnSignature` returns the outcome `MissingComment` (the JavaScript `TypeError`) exactly when the declaration handler detached the comment.

## Model

| member | source | states |
|---|---|---|
| Strings.StripLeft | typedoc-plugin-deno.ts:88 | the leading part removed consists of characters of the set, and what remains starts with a character outside the set |
| Strings.StripLeftSuffix | typedoc-plugin-deno.ts:88 | what the leading strip keeps is a suffix of the input |
| Strings.StripRight | typedoc-plugin-deno.ts:88 | the trailing part removed consists of characters of the set, and what remains ends with a character outside the set |
| Strings.StripRightPrefix | typedoc-plugin-deno.ts:88 | what the trailing strip keeps is a prefix of the input |
| Strings.StripEnds | typedoc-plugin-deno.ts:88 | after `trim` neither end of the string is a stripped character |
| Strings.StripInfix | typedoc-plugin-deno.ts:96 | `trim` keeps one contiguous piece of the input; everything removed on either side belongs to the stripped set |
| Strings.StripIsSlice | typedoc-plugin-deno.ts:96 | the trimmed string is a slice of the input with only set characters cut on either side, stated as `TrimmedAt` for some start index |
| Strings.StripUnchanged | typedoc-plugin-deno.ts:88 | a string whose ends are not stripped characters is returned unchanged |
| Strings.StripIdempotent | typedoc-plugin-deno.ts:88 | trimming twice equals trimming once |
| Strings.IndexOfFrom | typedoc-plugin-deno.ts:97 | the search from a start index returns an occurrence with none before it, or -1 when there is none from that index on |
| Strings.IndexOf | typedoc-plugin-deno.ts:97 | `indexOf` returns -1 exactly when the pattern never occurs, and otherwise its first occurrence |
| Strings.IndexOfChar | typedoc-plugin-deno.ts:97 | `indexOf('\n')` is -1 iff there is no line feed; otherwise it is an index holding a line feed with no line feed before it |
| Strings.ReplaceFirstAbsent | typedoc-plugin-deno.ts:69 | `replace` with a pattern that does not occur returns the string unchanged |
| Strings.ReplaceFirstOccurrence | typedoc-plugin-deno.ts:69 | `replace` substitutes only the first occurrence; the string splits around it, and the length changes by the difference of the pattern and replacement lengths |
| Strings.ReplaceEmptyPattern | typedoc-plugin-deno.ts:69 | removing an empty parameter name (`replace('', '')`) changes nothing |
| Strings.SplitFirstLine | typedoc-plugin-deno.ts:97-105 | the short part has no line feed; with no line feed the whole string is the short part and the long part is empty; otherwise short + "\n" + long is the string |
| Tags.Without | typedoc-plugin-deno.ts:137-146 | the order-preserving filter the loop computes; the list does not grow (which tags are kept: `WithoutMembers`) |
| Tags.WithoutMembers | typedoc-plugin-deno.ts:139-146 | a tag is kept iff it is in the original list and its name differs |
| Tags.WithoutAppend | typedoc-plugin-deno.ts:137-146 | filtering distributes over concatenation, so the remaining tags keep their relative order |
| Tags.WithoutSplice | typedoc-plugin-deno.ts:140-142 | `splice(i, 1)` of a matching tag does not change the filtered list (the loop's progress step) |
| Tags.WithoutLength | typedoc-plugin-deno.ts:137-146 | the length drops by exactly the number of tags carrying the name |
| Tags.WithoutUnchangedIff | typedoc-plugin-deno.ts:137-146 | the list is left unchanged iff no tag carries the name |
| Tags.WithoutIdempotent | typedoc-plugin-deno.ts:133-146 | no tag with the name remains, so a second removal is a no-op |
| Tags.Merge | typedoc-plugin-deno.ts:69 | the merged tag keeps name, text and parameter name, and gets a `text_i18n` |
| Tags.MergeTrimmed | typedoc-plugin-deno.ts:69 | the stored `text_i18n` is one contiguous slice of the companion's text with the first occurrence of the parameter name removed (`ReplaceFirstOccurrence` says what that removal leaves); only whitespace is cut on either side of it, and it has no whitespace at either end |
| Tags.ReconcileLength | typedoc-plugin-deno.ts:65-74 | the final number of tags is the original number minus the number of merges |
| Tags.MergesZeroIff | typedoc-plugin-deno.ts:67-68 | the sweep merges nothing iff no tag is directly followed by its `_i18n` companion |
| Tags.ReconcileNoMerge | typedoc-plugin-deno.ts:65-74 | with no merge every tag passes through unchanged |
| Tags.ReconcileUnchangedIff | typedoc-plugin-deno.ts:65-74 | the tag list is unchanged iff it contains no name / name_i18n adjacent pair |
| Tags.ReconcileSingleSweep | typedoc-plugin-deno.ts:70-73 | because the index advances after a merge, the merged tag is not compared with its new neighbour: `[x, x_i18n, x_i18n]` keeps the second companion |
| Tags.ReconcilePairHead | typedoc-plugin-deno.ts:68-71 | `Reconcile`'s defining equation for the merge branch, a proof step of `MergeCompanionTags`: a tag followed by its companion is replaced by the merged tag, the companion disappears, and the sweep goes on after both |
| Tags.ReconcileSkipHead | typedoc-plugin-deno.ts:73 | `Reconcile`'s defining equation for the skip branch, a proof step of `MergeCompanionTags`: a tag not followed by its companion is kept as it is and the sweep goes on from the next tag |
| Tags.ReconcileShort | typedoc-plugin-deno.ts:67 | `Reconcile`'s defining equation for the exit of the loop, a proof step of `MergeCompanionTags`: with fewer than two tags left, the sweep leaves them as they are |
| Tags.FindWith | typedoc-plugin-deno.ts:92 | `find` leaves a list of the same length |
| Tags.FindAsWrittenTakesFirst | typedoc-plugin-deno.ts:92 | as written, `find` returns nothing on an empty list; otherwise it returns the first tag, renamed to `_i18n`, and leaves that renamed tag in the list |
| Tags.FindMatchingKeeps | typedoc-plugin-deno.ts:92 | with `===`, `find` changes no tag and returns nothing iff no tag is named `_i18n` |
| Tags.FindMatchingIsFirst | typedoc-plugin-deno.ts:92 | with `===`, the tag returned is in the list, is named `_i18n`, and no earlier tag is |
| Tags.FindMatchingFirst | typedoc-plugin-deno.ts:92 | with `===` the tags are unchanged, nothing is returned iff no tag is named `_i18n`, and otherwise the first tag named `_i18n` is returned |
| DenoPlugin.EmptyAfterRemoval | typedoc-plugin-deno.ts:107-108 | once every tag with the name is removed, `isEmptyComment` (lines 114-116) holds exactly when text and short text are blank and every original tag carried that name |
| DenoPlugin.RemoveTags | typedoc-plugin-deno.ts:132-147 | an absent comment or absent tags change nothing; otherwise the tags become exactly `Without(old tags, tagName)` and no other field changes |
| DenoPlugin.OnDeclaration | typedoc-plugin-deno.ts:84-111 | the comment's new state is `DeclarationEffect` of its old state with the as-written callback, and the reflection loses its comment exactly when that effect detaches it |
| DenoPlugin.MergeCompanionTags | typedoc-plugin-deno.ts:63-74 | absent tags change nothing; otherwise the tags become `Reconcile(old tags)` and no other field changes |
| DenoPlugin.OnSignature | typedoc-plugin-deno.ts:59-75 | an absent comment changes nothing; otherwise the declaration effect is followed by the companion sweep, and the outcome is `MissingComment` iff the declaration handler detached the comment |
| DenoPlugin.DeclarationTrimsText | typedoc-plugin-deno.ts:88 | the text ends with no line feed at either end, and the short text is untouched |
| DenoPlugin.DeclarationWithoutTags | typedoc-plugin-deno.ts:90-94 | with absent tags or an empty tag list (as written, the only case in which `find` returns nothing), only the text is trimmed and the comment stays attached |
| DenoPlugin.DeclarationSplitsTranslation | typedoc-plugin-deno.ts:96-110 | when a tag is found: the short translation has no line feed; with no line feed it is the whole trimmed tag text and the long translation is empty; otherwise short + "\n" + long is that text. No `_i18n` tag remains, and the comment is detached iff it is empty |
| DenoPlugin.DeclarationAsWritten | typedoc-plugin-deno.ts:92-107 | on a non-empty tag list the translation comes from the first tag's text; the first tag and all other `_i18n` tags are removed; the rest keep their order |
| DenoPlugin.DeclarationDetachesIff | typedoc-plugin-deno.ts:107-110 | as written, the comment is detached iff it has tags, its text is only line feeds, its short text is empty and every tag after the first is an `_i18n` tag |
| DenoPlugin.DeclarationMatchingPassesThrough | typedoc-plugin-deno.ts:92-94 | with `===`, a comment without `_i18n` tags has only its text trimmed and stays attached |
| DenoPlugin.AsWrittenConsumesOrdinaryTag | typedoc-plugin-deno.ts:92 | on a comment whose only tag is an ordinary one, the code as written takes that tag's text as the translation and deletes the tag, while `===` leaves the tags alone |
| DenoPlugin.SignatureOnLoneTagFails | typedoc-plugin-deno.ts:61-63 | a signature comment with empty text, empty short text and a single tag is detached by the declaration handler, so `onSignature` then fails at line 63 |

## Left out

- Event registration with the converter (`initialize` / `listenTo`) is left out, together with the `Context` and `node` parameters: this is host-framework plumbing.
- `onParameter` and `TypeParameter` are left out: they only read the comment.
- Tags are values, not shared objects. The tag that `find` returns is the same object as the first list element. The model reads its text from the returned copy. This is equivalent here, because the text is read before the tag is removed.
- `paramName` is a plain string, so the coercion of an `undefined` parameter name to the pattern `"undefined"` by `replace` is not modelled. TypeDoc's `CommentTag` class, which sets that field, is not part of this model. Removing an empty name changes nothing (`ReplaceEmptyPattern`).
- `String.prototype.trim` is modelled by an explicit character set: the ECMAScript WhiteSpace and LineTerminator characters, with the space separators of current Unicode. Lodash `trim(s, '\n')` first splits the string into grapheme-like units, joining combining marks (U+0300-036F, U+20D0-20FF, U+FE20-FE2F), variation selectors and zero-width-joiner sequences to the character beside them. So lodash leaves `"\n\u0301x"` unchanged, while `Strip` gives `"\u0301x"`. That grouping is not modelled: `Strip` works on single characters.
- `text` and `shortText` are always strings. An `undefined` text, which lodash `trim` turns into `""`, is not modelled.
- The shown source has no line-oriented `i18n` blocks and no `param_i18n`, `returns_i18n`, `typeparam_i18n` or `template_i18n` handling. It has no post-resolution pass either. The model leaves all of these out.
- The merge loop of `onSignature` is not inline: it is the method `MergeCompanionTags`, which `OnSignature` calls after the detachment check. Its statements are those of lines 63-74.

## Findings

| source | as written | input that shows it | evidently intended | confidence | as-written member | corrected member |
|---|---|---|---|---|---|---|
| typedoc-plugin-deno.ts:92 | `find((x) => (x.tagName = '_i18n'))` assigns, so it always picks the first tag and renames it | a comment whose only tag is `@returns the sum`: its text becomes the translation and the tag is deleted | `find((x) => x.tagName === '_i18n')` | high, not executed | DenoPlugin.AsWrittenConsumesOrdinaryTag | DenoPlugin.DeclarationMatchingPassesThrough |

The handler methods model the code as written. The corrected behaviour is `DeclarationEffect` with the `MatchI18nName` callback. `Tags.FindMatchingFirst` proves that this callback finds the first `_i18n` tag and changes nothing, and `DeclarationMatchingPassesThrough` proves that comments without such a tag pass through.
