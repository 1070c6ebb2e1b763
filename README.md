# ResourceUtils path keys, modelled in Dafny

SonarLint for Eclipse identifies a workspace resource to the analysis
server by a *partial key*: the resource's project-relative path, normalised
so that separators are forward slashes, the characters up to U+0020 at
either end are trimmed and one separator is stripped from each end. Going the other way, a *component key*
of the form `<prefix>:...:<relativePath>` is resolved to a member of a
project, falling back to the project itself. This project models those two
directions of `ResourceUtils` as pure Dafny functions over `string` and
proves what they do.

Modules:

- `Wrappers` (`wrappers.dfy`): `Option`, standing for Java's `null`.
- `Strings` (`strings.dfy`): the string helpers the class calls,
  `String.replace(char, char)` from the Java runtime and `isBlank`,
  `isNotBlank`, `trim`, `removeStart`, `removeEnd` and `substringAfterLast`
  from commons-lang `StringUtils`, together with the Java runtime methods
  those library helpers rely on (`Character.isWhitespace`, `String.trim`,
  `String.endsWith`, `String.lastIndexOf`). Their sources are not part of
  this model; each is written from its documented behaviour, with the edge
  cases the library code has (an empty string or empty `remove` returns
  the input, a missing separator gives the empty string).
- `ResourceUtils` (`resource_utils.dfy`): `PATH_SEPARATOR` as
  `PathSeparator`, `normalize` as `Normalize` (split into `Cleaned`, the
  backslash replacement and trim, and `StripSeparators`, the root check and
  single strips), `getSonarResourcePartialKey` as `SonarResourcePartialKey`
  and `findResource` as `FindResource`.
- `NormalizeExamples` (`normalize_examples.dfy`): the outcomes on typical
  paths and on the edge cases of the single-strip rule.

The host IDE is abstracted: a resource is a value of a type parameter `R`;
`IResource.getProjectRelativePath().toString()` is a function argument
`projectRelativePath: R -> string`, and `IProject.findMember(String)` is a
function argument `findMember: string -> Option<R>`.

What the proofs establish:

- `Normalize` is absent exactly for a null or blank path, and
  `SonarResourcePartialKey` is absent exactly for a blank path and otherwise
  equals `Normalize`: its own blank check is redundant with `normalize`'s.
  A blank path holds no separator or backslash (`IsBlank`).
- A key never contains a backslash and is never longer than the path.
- The cleaned path `"/"` is kept as `"/"`; any other cleaned path loses
  exactly one leading and one trailing separator when present, and nothing
  else (`StripSeparators`). The stripping is single, not repeated: `"//"`
  gives `""` (a present, empty key), `"//a"` gives `"/a"`, so `Normalize` is
  not idempotent, and `"/ a /"` gives `" a "` because trimming happens
  before stripping.
- The normal form one would expect, no separator at either end except the
  root, holds when the cleaned path neither starts nor ends with a doubled
  separator (`StripSeparatorsNoOuterSeparator`); the code strips one slash
  only, and the model follows it.
- Blank and trimmable differ both ways: U+3000 is blank but is not
  trimmed, U+0000 is not blank but is trimmed (`BlankDiffersFromTrimmable`).
- End to end, the key is the slash-converted path with its trimmable head
  and tail removed and then its separators stripped (`NormalizeEndToEnd`).
- A path that is not blank can still yield the empty key: a control
  character such as U+0000 is not whitespace for `isBlank` but is removed
  by `trim` (`NormalizeControlCharacter`).
- An already clean path is returned unchanged (`NormalizeUnchanged`).
- `Trim` is characterised independently of its definition: for any split
  into trimmable head, middle with no trimmable ends, trimmable tail, it
  yields the middle (`TrimUnique`).
- `FindResource` looks up exactly the text after the last colon, which holds
  no colon and is empty when the key has none; it returns the member found
  or else the project, never absent.

## Model

| member | source | states |
|---|---|---|
| `Strings.IsWhitespace` | org.sonarlint.eclipse.core/src/org/sonarlint/eclipse/core/internal/resources/ResourceUtils.java:43 | space, tab, line feed and carriage return are whitespace; the separator, the backslash, the colon and U+0000 are not |
| `Strings.IsBlank` | org.sonarlint.eclipse.core/src/org/sonarlint/eclipse/core/internal/resources/ResourceUtils.java:43 | the empty string is blank, and a blank string contains no separator, backslash or colon |
| `Strings.IsTrimmable` | org.sonarlint.eclipse.core/src/org/sonarlint/eclipse/core/internal/resources/ResourceUtils.java:56 | space and U+0000 are trimmed; the separator, the backslash and the colon never are |
| `Strings.BlankDiffersFromTrimmable` | org.sonarlint.eclipse.core/src/org/sonarlint/eclipse/core/internal/resources/ResourceUtils.java:51-56 | U+3000 is blank yet survives trimming, and U+0000 is not blank yet is trimmed away |
| `Strings.Replace` | org.sonarlint.eclipse.core/src/org/sonarlint/eclipse/core/internal/resources/ResourceUtils.java:55 | replacing keeps the length, turns each occurrence of the old character into the new one and keeps every other character in place; afterwards the old character no longer occurs |
| `Strings.TrimLeft` | org.sonarlint.eclipse.core/src/org/sonarlint/eclipse/core/internal/resources/ResourceUtils.java:56 | the result is a suffix of the input, everything dropped is a character up to U+0020, and the result does not start with one |
| `Strings.TrimRight` | org.sonarlint.eclipse.core/src/org/sonarlint/eclipse/core/internal/resources/ResourceUtils.java:56 | the result is a prefix of the input, everything dropped is a character up to U+0020, and the result does not end with one |
| `Strings.Trim` | org.sonarlint.eclipse.core/src/org/sonarlint/eclipse/core/internal/resources/ResourceUtils.java:56 | the trimmed string is no longer than the input, has no trimmable character at either end, and is empty exactly when every input character is trimmable |
| `Strings.TrimIsInfix` | org.sonarlint.eclipse.core/src/org/sonarlint/eclipse/core/internal/resources/ResourceUtils.java:56 | the trimmed string is one contiguous piece of the input with only trimmable characters on either side |
| `Strings.TrimUntrimmed` | org.sonarlint.eclipse.core/src/org/sonarlint/eclipse/core/internal/resources/ResourceUtils.java:56 | a string with no trimmable ends is left unchanged by trimming |
| `Strings.TrimUnique` | org.sonarlint.eclipse.core/src/org/sonarlint/eclipse/core/internal/resources/ResourceUtils.java:56 | for any split into a trimmable head, a middle with no trimmable ends and a trimmable tail, trimming yields exactly the middle |
| `Strings.TrimLeftOfPrefix` | org.sonarlint.eclipse.core/src/org/sonarlint/eclipse/core/internal/resources/ResourceUtils.java:56 | a trimmable head before a non-trimmable character is exactly what the leading trim removes |
| `Strings.TrimRightOfSuffix` | org.sonarlint.eclipse.core/src/org/sonarlint/eclipse/core/internal/resources/ResourceUtils.java:56 | a trimmable tail after a non-trimmable character is exactly what the trailing trim removes |
| `Strings.TrimIdempotent` | org.sonarlint.eclipse.core/src/org/sonarlint/eclipse/core/internal/resources/ResourceUtils.java:56 | trimming twice is trimming once |
| `Strings.RemoveStart` | org.sonarlint.eclipse.core/src/org/sonarlint/eclipse/core/internal/resources/ResourceUtils.java:60 | when the prefix is non-empty and present the input is that prefix followed by the result, otherwise the input is returned as it is; no character is introduced |
| `Strings.RemoveEnd` | org.sonarlint.eclipse.core/src/org/sonarlint/eclipse/core/internal/resources/ResourceUtils.java:61 | when the suffix is non-empty and present the input is the result followed by that suffix, otherwise the input is returned as it is; no character is introduced |
| `Strings.LastIndexOf` | org.sonarlint.eclipse.core/src/org/sonarlint/eclipse/core/internal/resources/ResourceUtils.java:67 | the result is -1 exactly when the character is absent, and otherwise a position holding it with no later occurrence |
| `Strings.SubstringAfterLast` | org.sonarlint.eclipse.core/src/org/sonarlint/eclipse/core/internal/resources/ResourceUtils.java:67 | the result is a suffix of the key with no separator in it, empty when the key has no separator, and otherwise directly preceded by a separator |
| `Strings.SubstringAfterLastOfJoin` | org.sonarlint.eclipse.core/src/org/sonarlint/eclipse/core/internal/resources/ResourceUtils.java:67 | for a key `prefix:last` with no separator in `last`, the part after the last separator is exactly `last`, whatever the prefix |
| `ResourceUtils.PathSeparator` | org.sonarlint.eclipse.core/src/org/sonarlint/eclipse/core/internal/resources/ResourceUtils.java:35 | the path separator is the one-character string `/` |
| `ResourceUtils.Normalize` | org.sonarlint.eclipse.core/src/org/sonarlint/eclipse/core/internal/resources/ResourceUtils.java:50-63 | the key is absent exactly for a null or blank path; a present key has no backslash and is no longer than the path |
| `ResourceUtils.Cleaned` | org.sonarlint.eclipse.core/src/org/sonarlint/eclipse/core/internal/resources/ResourceUtils.java:55-56 | after replacing and trimming the path is no longer than before, has no backslash and no trimmable character at either end |
| `ResourceUtils.TrimChars` | org.sonarlint.eclipse.core/src/org/sonarlint/eclipse/core/internal/resources/ResourceUtils.java:56 | trimming introduces no character that was not in the input |
| `ResourceUtils.StripSeparators` | org.sonarlint.eclipse.core/src/org/sonarlint/eclipse/core/internal/resources/ResourceUtils.java:57-61 | the lone separator is returned as it is; otherwise, case by case, the cleaned path equals the result with one separator put back at each end that had one, and the result is the cleaned path itself when neither end had one |
| `ResourceUtils.StripSeparatorsNoOuterSeparator` | org.sonarlint.eclipse.core/src/org/sonarlint/eclipse/core/internal/resources/ResourceUtils.java:57-62 | when the cleaned path is not the root and neither starts nor ends with a doubled separator, the key neither starts nor ends with a separator |
| `ResourceUtils.NormalizeEndToEnd` | org.sonarlint.eclipse.core/src/org/sonarlint/eclipse/core/internal/resources/ResourceUtils.java:54-62 | for a non-blank path whose slash-converted form is a trimmable head, a middle with no trimmable ends and a trimmable tail, the key is that middle with one separator stripped at each end that has one (the lone separator kept) |
| `ResourceUtils.NormalizeUnchanged` | org.sonarlint.eclipse.core/src/org/sonarlint/eclipse/core/internal/resources/ResourceUtils.java:54-62 | a non-blank path with no backslash, no trimmable ends and no separator at either end is its own key |
| `ResourceUtils.CleanedUnchanged` | org.sonarlint.eclipse.core/src/org/sonarlint/eclipse/core/internal/resources/ResourceUtils.java:55-56 | replacing and trimming leave a path with no backslash and no trimmable ends as it is |
| `ResourceUtils.SonarResourcePartialKey` | org.sonarlint.eclipse.core/src/org/sonarlint/eclipse/core/internal/resources/ResourceUtils.java:41-47 | the partial key is absent exactly when the project-relative path is blank, and is otherwise the normalised path |
| `ResourceUtils.FindResource` | org.sonarlint.eclipse.core/src/org/sonarlint/eclipse/core/internal/resources/ResourceUtils.java:66-70 | the result is the member found at the text after the last colon, or the project when the lookup finds none; never absent |
| `ResourceUtils.FindResourceByRelativePath` | org.sonarlint.eclipse.core/src/org/sonarlint/eclipse/core/internal/resources/ResourceUtils.java:66-70 | for a key `prefix:relativePath` with no colon in `relativePath`, the lookup is of exactly `relativePath` and the result is that member or else the project |
| `ResourceUtils.FindResourceWithoutColon` | org.sonarlint.eclipse.core/src/org/sonarlint/eclipse/core/internal/resources/ResourceUtils.java:67-69 | a key without a colon makes the lookup path empty; the result is the member found at the empty path, or the project when there is none |
| `NormalizeExamples.NormalizeBlank` | org.sonarlint.eclipse.core/src/org/sonarlint/eclipse/core/internal/resources/ResourceUtils.java:51-53 | null, empty and whitespace-only paths have no key |
| `NormalizeExamples.NormalizeRoot` | org.sonarlint.eclipse.core/src/org/sonarlint/eclipse/core/internal/resources/ResourceUtils.java:57-59 | `"/"` and `" \ "` both give the key `"/"` |
| `NormalizeExamples.NormalizeTrailingSeparator` | org.sonarlint.eclipse.core/src/org/sonarlint/eclipse/core/internal/resources/ResourceUtils.java:61 | `"a/b/"` gives `"a/b"` |
| `NormalizeExamples.NormalizeBothSeparators` | org.sonarlint.eclipse.core/src/org/sonarlint/eclipse/core/internal/resources/ResourceUtils.java:60-61 | `"/a/b/"` gives `"a/b"` |
| `NormalizeExamples.NormalizeBackslashes` | org.sonarlint.eclipse.core/src/org/sonarlint/eclipse/core/internal/resources/ResourceUtils.java:55-61 | `"\a\b\"` gives `"a/b"` |
| `NormalizeExamples.NormalizeSeparatorPair` | org.sonarlint.eclipse.core/src/org/sonarlint/eclipse/core/internal/resources/ResourceUtils.java:57-62 | `"//"` gives the empty key, not an absent one |
| `NormalizeExamples.NormalizeDoubledLeadingSeparator` | org.sonarlint.eclipse.core/src/org/sonarlint/eclipse/core/internal/resources/ResourceUtils.java:60 | `"//a"` gives `"/a"`: only one separator is stripped |
| `NormalizeExamples.NormalizeLeadingSeparator` | org.sonarlint.eclipse.core/src/org/sonarlint/eclipse/core/internal/resources/ResourceUtils.java:60 | `"/a"` gives `"a"` |
| `NormalizeExamples.NormalizeExposesSpaces` | org.sonarlint.eclipse.core/src/org/sonarlint/eclipse/core/internal/resources/ResourceUtils.java:56-61 | `"/ a /"` gives `" a "`: spaces exposed by stripping are kept |
| `NormalizeExamples.NormalizeControlCharacter` | org.sonarlint.eclipse.core/src/org/sonarlint/eclipse/core/internal/resources/ResourceUtils.java:51-62 | a path that is only U+0000 is not blank but gives the empty key |
| `NormalizeExamples.NormalizeNotIdempotent` | org.sonarlint.eclipse.core/src/org/sonarlint/eclipse/core/internal/resources/ResourceUtils.java:60-61 | some path has a key whose own key differs from it |

## Left out

- `getAbsolutePath` (ResourceUtils.java:73-91): it queries the Eclipse workspace, checks the file system and writes to the plugin log; it is host I/O with no logic beyond a branch on those answers.
- The Eclipse resource model (`IResource`, `IProject`, `IPath`, the workspace root) and the semantics of `IProject.findMember` (linked resources, path parsing, `findMember("")` answering the project): resources are an abstract type and the lookup a function argument.
- The unused `serverVersion` parameter of `getSonarResourcePartialKey`: it has no effect.
- A null `componentKey` in `findResource`: `substringAfterLast` would pass the null on to `findMember`, whose behaviour is host-defined; keys are non-null strings here.
- Strings are sequences of Unicode code points, not of UTF-16 code units: a character outside the Basic Multilingual Plane counts 1 towards `|path|` instead of 2. No character the code inspects (backslash, slash, colon, whitespace, characters up to U+0020) lies outside that plane, so only lengths differ; unpaired surrogates cannot be represented.
- `Strings.IsWhitespace` follows Java 8's `Character.isWhitespace` table (Unicode 6.2, so U+180E counts as whitespace); later Java versions differ on such characters. The general lemmas (`StripSeparators`, `NormalizeUnchanged`, `NormalizeEndToEnd`, the trim lemmas) hold for any whitespace table; `NormalizeBlank`, `NormalizeControlCharacter`, `BlankDiffersFromTrimmable` and the `IsWhitespace` contract depend on the table's entries for space, tab, line feed, carriage return, U+0000 and U+3000.
- `Strings.SubstringAfterLast`: only a one-character separator is modelled, the only kind the class passes.
