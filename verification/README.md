# Input style transform and path formatter, in Dafny

This project models the style transform of the editable input component
(`components/Input/Input.tsx`) and the path formatter of `utils/index.tsx`,
and proves properties of both.

The transform takes the input's optional property groups and produces one
flat record of visual attributes:

- the text attributes: value, placeholder, colour and size;
- fill, border and layout;
- the shadow list;
- blur and filters;
- the container layout.

It builds that record by spreading sub-records over each other in a fixed
order: fill, border, layout, text attributes, shadows, filters, then the
parent-context record.

- **Records** are `map<string, string>`. An object spread `{...a, ...b}` is
  Dafny's right-biased `a + b`.
- **Absent groups** are `Option.None`.
- **The filters group** is an explicit ordered sequence of (filter-type name,
  entry) pairs. It stands for the order in which `Object.keys` enumerates the
  group.
- **The four helpers** the transform calls but does not define are fields of
  a `Collaborators` record: `transformColorToStr`, `transformLayout`,
  `transformBorderProps` and `getPropsFromParent`. The record also holds the
  empty container-layout object `{}`. The groups that only those helpers read
  (layout, border, container layout, parent context) are type parameters.
- **Numbers** (size, shadow offsets and blur, filter and blur amounts) are
  integers. They are rendered in decimal, as JavaScript's `String(n)` does
  for integral values.

The JavaScript built-ins the code relies on are modelled in `JsString`:
`trim`, `split`, `join`, `toLowerCase` and number-to-string. Each has a
definition that follows the built-in, plus the independent description or
inverse it is proved against:

- trim is characterised as the slice left after removing whitespace at both
  ends, and only there;
- toLowerCase is described per character: each upper-case ASCII letter
  becomes the lower-case letter at the same place in the alphabet, and every
  other character is kept;
- split and join are inverses;
- split-then-join is character replacement;
- number rendering reads back with `ParseNumber`.

Files:

- `optional.dfy`: `Option`.
- `js_string.dfy`: the string built-ins.
- `utils.dfy`: `pathToString` and its inverse.
- `input_style.dfy`: the transform and its sub-transforms.

Two behaviours of the code are kept exactly as written:

- The shadow separator is the literal `" ,"` (space, then comma).
- A filters group that is present but has no active entry still yields
  `filter: ""`.

## Model

| member | source | states |
|---|---|---|
| `JsString.Trim` | components/Input/Input.tsx:87 | the result is a slice `s[i..j]` of the input where everything before `i` and from `j` on is JavaScript whitespace; it has no whitespace at either end; an already-trimmed string is unchanged; an empty result means the input was all whitespace |
| `JsString.TrimSpaced` | components/Input/Input.tsx:94 | trimming `a + " " + b` for trimmed non-empty `a` and trimmed `b` gives `a` when `b` is empty, else the string unchanged |
| `JsString.Join` | utils/index.tsx:6 | the join's length is the sum of the piece lengths plus one separator per gap, max(n-1, 0) |
| `JsString.Split` | components/Input/Input.tsx:83 | split always yields at least one piece; no piece contains the separator; a string containing the separator yields at least two pieces |
| `JsString.JoinSplitIsReplace` | components/Input/Input.tsx:81-84 | splitting on one character and joining with another replaces every occurrence of the first by the second |
| `JsString.SplitJoin` | utils/index.tsx:6 | splitting a join of at least one separator-free piece gives the pieces back |
| `JsString.TrimPrefixedIsJoin` | components/Input/Input.tsx:77-87 | trimming the concatenation of " " + piece, over non-empty trimmed pieces, equals their single-space join |
| `JsString.NumberToString` | components/Input/Input.tsx:67 | the rendering of an integer is non-empty, starts with '-' exactly for negatives, and holds no whitespace |
| `JsString.NumberRoundTrip` | components/Input/Input.tsx:67 | the decimal rendering of any integer reads back to that integer |
| `JsString.ParseNumberCanonical` | components/Input/Input.tsx:67 | every string the reader accepts is exactly the rendering of the number it reads (no leading zeros, no "-0"), so rendering and reading are inverse bijections |
| `JsString.Lower` | components/Input/Input.tsx:82 | lower-casing keeps the length; each upper-case ASCII letter becomes the lower-case letter at the same alphabet position; every other character is kept; no upper-case letter is left; whitespace stays where it was |
| `Utils.PathToString` | utils/index.tsx:5-6 | the length is all segment lengths plus max(n-1,0) separators per part plus the middle '/'; never empty; starts with '/' when there are no names; ends with '/' when there are no positions; exactly "/" when both are empty |
| `Utils.ParsePathToString` | utils/index.tsx:5-6 | rendering a path with at least one segment in each part and separator-free segments, then parsing it, gives the path back |
| `Utils.PathToStringParse` | utils/index.tsx:5-6 | every string containing a '/' is the rendering of the path it parses to |
| `InputStyle.TransformInputProps` | components/Input/Input.tsx:48-69 | keys are exactly value, placeholder, color, size; value and placeholder are copied; colour is formatted; size is a pixel length that reads back to the size; with no text attributes: "", "", the formatted opaque black, "14px" |
| `InputStyle.PixelValueExact` | components/Input/Input.tsx:67 | a pixel length that reads back to a number is exactly that number's rendering followed by "px", so the size clause of TransformInputProps fixes the size string |
| `InputStyle.ShadowToString` | components/Input/Input.tsx:105-107 | a rendered shadow ends with the formatted colour and is longer than it |
| `InputStyle.ShadowToStringReadBack` | components/Input/Input.tsx:105-107 | the character just before the colour is a space; cutting the colour and that space off a rendered shadow leaves exactly three space-separated pixel lengths, which read back to x, y and blur |
| `InputStyle.PixelFieldsReadBack` | components/Input/Input.tsx:105-107 | the three pixel lengths of a shadow, joined by spaces, split back into exactly three fields that read back to x, y and blur |
| `InputStyle.ShadowsFold` | components/Input/Input.tsx:102-109 | the loop only appends to its accumulator, and appends something exactly when some shadow is active |
| `InputStyle.ActiveShadowStrings` | components/Input/Input.tsx:103-108 | defined as the rendered active shadows in order; the contract adds: no more entries than shadows, empty exactly when no shadow is active, each entry non-empty |
| `InputStyle.ShadowsFoldAfterFirst` | components/Input/Input.tsx:103-109 | once something is accumulated, the shadow loop appends each active shadow preceded by " ," |
| `InputStyle.ShadowsFoldIsJoin` | components/Input/Input.tsx:101-109 | the shadow loop builds exactly the active shadows joined by " ,", with no leading separator |
| `InputStyle.TransformShadowsProps` | components/Input/Input.tsx:101-114 | the only key is shadow; it holds the active shadows in list order joined by " ,"; it is "" exactly when no shadow is active |
| `InputStyle.Kebab` | components/Input/Input.tsx:81-84 | the kebab name has the original length; each space becomes '-' and every other character is lower-cased |
| `InputStyle.CssCall` | components/Input/Input.tsx:81-84 | a call is the head, '(', the rendered amount followed by the unit, and ')', and nothing else (its length is the sum of those parts) |
| `InputStyle.CssCallReadBack` | components/Input/Input.tsx:84 | the text between '(' and the unit reads back to the amount, and the unit sits just before ')' |
| `InputStyle.FilterToken` | components/Input/Input.tsx:81-84 | a filter token is the kebab name, '(', the rendered amount followed by the unit, and ')'; a plain name gives a token with no whitespace at either end |
| `InputStyle.FilterTokenReadBack` | components/Input/Input.tsx:84 | the amount of a filter token reads back from between '(' and the unit, and the unit sits just before ')' |
| `InputStyle.BlurToken` | components/Input/Input.tsx:90 | the blur token is "blur(", the rendered amount followed by the unit, and ')'; it has no whitespace at either end |
| `InputStyle.BlurTokenReadBack` | components/Input/Input.tsx:90 | the blur amount reads back from between "blur(" and the unit, and the unit sits just before ')' |
| `InputStyle.FiltersFoldAppends` | components/Input/Input.tsx:77-86 | `FiltersFold`, the filter loop as written, only appends to its accumulator; it appends something exactly when some entry is active, and then the result ends in ')' |
| `InputStyle.ActiveFilterTokens` | components/Input/Input.tsx:78-86 | defined as the tokens of the active entries in order; the contract adds: no more tokens than entries, empty exactly when none is active, every token ends in ')', tokens of plain names are trimmed |
| `InputStyle.FiltersFoldIsPrefixed` | components/Input/Input.tsx:77-86 | `FiltersFold`, the filter loop, appends " " + token for each active entry, in group order, for any starting accumulator |
| `InputStyle.FilterString` | components/Input/Input.tsx:76-88 | the filter string has no leading or trailing whitespace; it is "" exactly when no entry is active |
| `InputStyle.FilterStringIsJoin` | components/Input/Input.tsx:76-88 | for plain names, the filter string is the active tokens joined by single spaces |
| `InputStyle.TransformFilterProps` | components/Input/Input.tsx:71-99 | filter is present iff a filters group is given or the blur is active and not Background; backdropFilter is present iff the blur is active with Background, and then holds the blur token; otherwise filter is the filters string; a foreground blur puts its token first, alone if there are no filter tokens; filter is always trimmed |
| `InputStyle.PrependBlur` | components/Input/Input.tsx:94 | the result is always trimmed; for a trimmed token and trimmed filters it is the token, followed by " " + filters when there are filters |
| `InputStyle.TransformFilterPropsTokens` | components/Input/Input.tsx:76-96 | for plain names, filter is the space-join of the blur token (foreground blur only) followed by the active filter tokens in group order |
| `InputStyle.MergeAll` | components/Input/Input.tsx:136-143 | a key is in a spread chain's result exactly when some spread record has it |
| `InputStyle.MergeAllLastWins` | components/Input/Input.tsx:136-143 | in a spread chain a key takes its value from the last record that defines it |
| `InputStyle.FillStage` | components/Input/Input.tsx:129-132 | the fill step yields only the fill key, present exactly when the fill group is present and active, holding the formatted fill colour |
| `InputStyle.BorderStage` | components/Input/Input.tsx:133-135 | the border step adds nothing without a border group, and exactly the border helper's record with one |
| `InputStyle.ShadowStage` | components/Input/Input.tsx:140 | the shadow step yields only the shadow key, present exactly when a shadow list is given, holding the " ," join of the active shadows |
| `InputStyle.ParentStage` | components/Input/Input.tsx:125-142 | the parent step passes the given container layout to the parent-context helper, and the empty layout `{}` when none is given |
| `InputStyle.Transform` | components/Input/Input.tsx:116-144 | every key from getPropsFromParent is in the result with the parent-context value, overriding all earlier steps |
| `InputStyle.TransformIsStagedMerge` | components/Input/Input.tsx:116-144 | transform is the right-biased merge of fill, border, layout, text attributes, shadows, filters, parent context, in that order |
| `InputStyle.TransformFill` | components/Input/Input.tsx:129-132 | an active fill always puts fill in the result; when no other helper produces fill, fill is there exactly when the fill group is present and active, holding its formatted colour |
| `InputStyle.TransformTextAttributes` | components/Input/Input.tsx:139 | value, placeholder, colour and size reach the result (the initial ones when absent) unless the parent context overrides that key |
| `InputStyle.TransformShadow` | components/Input/Input.tsx:140 | a given shadow list always puts shadow in the result; when no other helper produces shadow, shadow is there exactly when a list is given, listing the active shadows |
| `InputStyle.TransformFilter` | components/Input/Input.tsx:141 | a filters group or a foreground blur always puts filter in the result, and a Background blur always puts backdropFilter; when no other helper produces them, both follow the filter composition's presence rules and values |
| `InputStyle.TransformDefaults` | components/Input/Input.tsx:116-144 | a missing property bag means `{}`: value "", placeholder "", the formatted opaque black, "14px", and no fill, shadow, filter or backdropFilter unless a helper produces them |
| `InputStyle.TwoShadowsExample` | components/Input/Input.tsx:101-113 | two active black shadows (1,2,3) and (4,5,6) render as "1px 2px 3px rgba(0,0,0,1) ,4px 5px 6px rgba(0,0,0,1)" when black formats as rgba(0,0,0,1) |
| `InputStyle.BackgroundBlurExample` | components/Input/Input.tsx:89-93 | an active 5px Background blur with no filters group gives backdropFilter "blur(5px)" and no filter |
| `InputStyle.BlurBeforeSingleFilter` | components/Input/Input.tsx:89-95 | a foreground blur with a single active plain-named filter gives the blur token, a space, then the filter token |
| `InputStyle.BlurAndGrayscaleExample` | components/Input/Input.tsx:76-96 | an active 5px Normal blur with an active 50% Grayscale filter gives filter "blur(5px) grayscale(50%)" |
| `InputStyle.GrayscaleKebab` | components/Input/Input.tsx:81-84 | "Grayscale" in kebab case is "grayscale" |

## Left out

- The `Input` React component (components/Input/Input.tsx:146-255) is left out. It is UI rendering, inspector wiring and update callbacks, with no logic of the transform.
- The internals of `transformColorToStr`, `transformLayout`, `transformBorderProps` and `getPropsFromParent` are left out. They live in a shared inspector library that is not part of this model, so they are function-typed parameters.
- `components/Text/index.ts` only re-exports names and has no logic to model.
- Values produced by the helpers are modelled as strings. JavaScript would also allow numbers in the record.
- Amounts, offsets and sizes are integers. Fractional values, exponent notation (magnitudes from 1e21) and `undefined` amounts (which JavaScript renders as "undefined") are not modelled.
- JsString.Lower: lower-cases ASCII letters only. Full Unicode `toLowerCase` mappings are not modelled; filter-type names are ASCII words.
- InputStyle.FilterStringIsJoin: stated only for plain names, whose only whitespace is the space character. A name starting with another whitespace character (a tab, say) would have that character removed by `trim`, so the plain join is not its result.
- InputStyle.TransformFilterPropsTokens: stated for plain names only, for the same reason.
- InputStyle.TransformFill: the "exactly when" and the value of `fill` hold only when no helper also produces `fill`. The helpers are unknown, so those claims are conditional on that.
- InputStyle.TransformShadow: the "exactly when" and the value of `shadow` hold only when no helper also produces `shadow`.
- InputStyle.TransformFilter: the "exactly when" and the values of `filter` and `backdropFilter` hold only when no helper also produces them.
- InputStyle.TransformTextAttributes: assumes the parent context does not override the key in question. It is the only later step that can.
- InputStyle.TransformDefaults: assumes no helper produces the keys it claims absent or defaulted.
- Utils.ParsePathToString: needs at least one segment in each part. `[]` and `[""]` render identically, so no parser can tell them apart.
- JavaScript objects have unique keys. The filters sequence may repeat a name; the model then emits one token per occurrence.
- The source indexes the filters group with a non-null assertion (`filtersProps[filterType]!`). Every listed name in the model has an entry, so the case of a missing entry does not arise.
- Both parts of a `Path` are sequences of strings. The `Path` type itself is defined in a core library that is not part of this model.
- Idempotence and determinism of the transform are not stated as lemmas. Every member is a pure function, so both hold by construction.
