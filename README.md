# Acknowledgements generator — Dafny model

`scripts/generate_acknowledgements.js` writes `ACKNOWLEDGMENTS.md` for the
de arco desktop application. It does four things:

- It takes the runtime dependencies declared in `package.json` and removes
  the skipped ones (the skip set is empty). It sorts the rest.
- For each dependency it chooses a license text:
  - `fs-xattr` always gets `License: MIT`.
  - Any other dependency gets the trimmed contents of the first entry in its
    `node_modules` directory whose name matches `/^licen[s|c]e/i`.
  - If no entry matches, it gets `License: <id>` from the `license` field of
    the dependency's own `package.json`.
  - If that field is missing or empty, the run fails with
    `Could not find license for <name>`.
- It renders one Markdown section per dependency: the heading `## <name>`,
  an empty line, then every license line trimmed. A non-blank line gets four
  spaces of indentation; a blank line is left empty.
- It assembles the document from these parts, then pretty-prints it and
  writes it out:
  - a two-line HTML comment with the copyright years and the SPDX identifier;
  - the title;
  - a sentence naming the product;
  - the sections, with a blank line between sections.

The model is purely functional, like the script's own logic. Everything the
script reads is an input:

- the keys of the `dependencies` object, as a sequence;
- the `productName` field, as an `Option`;
- the current year, as an integer;
- a map from dependency name to `Installed`. An `Installed` value holds the
  directory listing in order, the readable file contents and the declared
  `license`.

A name missing from that map stands for a directory that cannot be listed.
A listing entry missing from its `files` map stands for a file that cannot
be read. The JavaScript primitives the script relies on are written out:

- `String.prototype.trim` over the ECMAScript WhiteSpace and LineTerminator
  characters (`Text.Trim`);
- `split(/\r?\n/)` (`Text.SplitLines`) and `Array.prototype.join`
  (`Text.Join`);
- the default `Array.prototype.sort` order (`Ordering`);
- how a number is written into a template literal (`Decimal`).

Two details of the code that are easy to miss:

- Inside brackets `|` is an ordinary character, so the pattern `[s|c]` also
  accepts `licen|e`. `Acknowledgements.IsLicenseFileSpec` states the three
  accepted spellings.
- The unformatted text has no blank line between `licenseComment()` and the
  `# Acknowledgments` title: they are consecutive elements of a
  `join('\n')`, so only the formatter could add one.
  `Acknowledgements.OutputLines` states the lines as the script builds them.

Modules:

| Module | File | Contents |
|---|---|---|
| `Wrappers` | `wrappers.dfy` | `Option`, `Result` |
| `Text` | `text.dfy` | trim, line splitting, join |
| `Decimal` | `decimal.dfy` | number to text |
| `Ordering` | `ordering.dfy` | sort order and sort |
| `Header` | `header.dfy` | `licenseComment`, title, intro |
| `Acknowledgements` | `acknowledgements.dfy` | license selection, sections, dependency list, document |

## Model

| member | source | states |
|---|---|---|
| Acknowledgements.IsLicenseFileSpec | scripts/generate_acknowledgements.js:17 | A name is a license file iff it has at least seven characters and, with ASCII letters lower-cased, those seven spell `license`, `licence` or `licen\|e` |
| Acknowledgements.LicenseFileIgnoresSuffix | scripts/generate_acknowledgements.js:17 | Only the first seven characters decide; an extension or any other suffix never changes the verdict |
| Acknowledgements.LicenseFileAccepted | scripts/generate_acknowledgements.js:17 | `LICENSE`, `license.md`, `Licence.txt`, `LICENSE-MIT` and `licen\|e` are license files |
| Acknowledgements.LicenseFileRejected | scripts/generate_acknowledgements.js:17 | `LICENS`, `README.md`, `UNLICENSE` (not anchored at the start), `licenze` and `package.json` are not license files |
| Acknowledgements.IsLicenseFile | scripts/generate_acknowledgements.js:17 | `isItALicenseFile`; what it accepts is stated by IsLicenseFileSpec, LicenseFileIgnoresSuffix, LicenseFileAccepted and LicenseFileRejected |
| Acknowledgements.FindLicenseEntry | scripts/generate_acknowledgements.js:26-28 | `find` returns a position that is a license file with no license file before it; it returns nothing iff no entry is a license file |
| Acknowledgements.FirstLicenseEntryUnique | scripts/generate_acknowledgements.js:26-28 | At most one position is the first license entry, so the chosen file is determined |
| Acknowledgements.InstalledLicenseBody | scripts/generate_acknowledgements.js:26-43 | With a first license entry, the body is its trimmed contents, or an unreadable-file error. With none, the body is `License: <license>`, or the not-found error when the field is missing or empty |
| Acknowledgements.LicenseBody | scripts/generate_acknowledgements.js:22-44 | `fs-xattr` always gets `License: MIT`. An uninstalled dependency fails. Any other installed dependency gets exactly what InstalledLicenseBody gives it. Every error names the dependency it is about |
| Acknowledgements.LicenseNotFoundExactly | scripts/generate_acknowledgements.js:34-41 | "Could not find license" happens iff the dependency is not `fs-xattr`, it is installed, no entry is a license file and no license is declared |
| Acknowledgements.Error.Message | scripts/generate_acknowledgements.js:40 | The thrown text `Could not find license for <name>`; MessageNamesDependency states that it identifies the dependency |
| Acknowledgements.MessageNamesDependency | scripts/generate_acknowledgements.js:40 | Two not-found messages are equal iff they are about the same dependency |
| Acknowledgements.RenderLine | scripts/generate_acknowledgements.js:49-55 | A line renders empty iff it is all whitespace. Otherwise it renders as four spaces followed by the trimmed line, which starts and ends with non-whitespace |
| Acknowledgements.SectionLines | scripts/generate_acknowledgements.js:46-56 | A section has the heading `## <name>`, an empty line, then one line per line of the body |
| Acknowledgements.SectionBodyLines | scripts/generate_acknowledgements.js:49-55 | Each section line after the heading is empty iff its source line is blank, and otherwise is exactly four spaces followed by the trimmed source line; removing the indentation gives back the trimmed source line |
| Acknowledgements.SectionReadsBack | scripts/generate_acknowledgements.js:46-56 | For a name with no line feed and no final carriage return, splitting the section text into lines gives back the section lines: 3 + (number of line feeds in the body) lines |
| Acknowledgements.SectionLinesAreSingle | scripts/generate_acknowledgements.js:46-56 | For a name with no line feed and no final carriage return, no section line contains a line feed or ends in a carriage return |
| Acknowledgements.Section | scripts/generate_acknowledgements.js:46-56 | The markdown for one dependency; SectionReadsBack states that it reads back as its section lines |
| Acknowledgements.MarkdownForDependency | scripts/generate_acknowledgements.js:19-57 | Succeeds iff a license body is found and fails with that body's error otherwise; for a name with no line feed and no final carriage return, the text it returns reads back as the section lines |
| Acknowledgements.MapAllOrNothing | scripts/generate_acknowledgements.js:78-86 | The fan-out succeeds iff every element does. It then holds each element's result at that element's position. A failure is some element's failure |
| Acknowledgements.MarkdownsForDependencies | scripts/generate_acknowledgements.js:78-86 | The `pMap` call over the dependency names; FanOutFailsExactly and MarkdownsAreSections state its outcome |
| Acknowledgements.FanOutFailsExactly | scripts/generate_acknowledgements.js:78-86 | The fan-out over the names fails iff some name has no license body, and its error names one of them |
| Acknowledgements.MarkdownsAreSections | scripts/generate_acknowledgements.js:78-86 | When every body is found, the fan-out returns, at each position, the joined section lines of that dependency |
| Acknowledgements.WithoutSkipped | scripts/generate_acknowledgements.js:74-75 | The filter keeps every key outside the skip set, with its multiplicity, and drops every key in the skip set |
| Acknowledgements.DependencyNames | scripts/generate_acknowledgements.js:74-76 | The list is sorted and is a permutation of the keys not skipped |
| Acknowledgements.DependencyNamesMembers | scripts/generate_acknowledgements.js:74-76 | A name is in the list iff it is a key outside the skip set |
| Acknowledgements.DependencyNamesSpec | scripts/generate_acknowledgements.js:74-76 | For distinct keys, the list has no duplicates and is strictly ascending |
| Acknowledgements.DependencyNamesIgnoreKeyOrder | scripts/generate_acknowledgements.js:74-76 | Any two orders of the same keys give the same list |
| Acknowledgements.JoinSections | scripts/generate_acknowledgements.js:94 | Joining the sections with a blank line joins all of their lines, with an empty line between consecutive sections |
| Acknowledgements.Document | scripts/generate_acknowledgements.js:88-95 | `unformatted_output` for given sections; DocumentLines and SectionsReadBack state its lines |
| Acknowledgements.DocumentLines | scripts/generate_acknowledgements.js:88-95 | The document is the header lines, the title, an empty line, the intro, an empty line and the laid-out section lines, joined with line feeds |
| Acknowledgements.SectionsReadBack | scripts/generate_acknowledgements.js:88-95 | When the product name and the section names have no line feed and no final carriage return, splitting the document into lines gives back exactly that line list |
| Acknowledgements.OutputIsFanOut | scripts/generate_acknowledgements.js:78-95 | The run fails iff the fan-out fails, and it fails with the fan-out's error |
| Acknowledgements.OutputIsDocument | scripts/generate_acknowledgements.js:88-95 | When the fan-out succeeds, the run's text is the document built from the fan-out's sections, with the product name defaulting to `de arco` |
| Acknowledgements.OutputFailsExactly | scripts/generate_acknowledgements.js:78-95 | The run fails iff some declared, not skipped dependency has no license body, and the error names a declared dependency |
| Acknowledgements.OutputLines | scripts/generate_acknowledgements.js:88-95 | When every dependency has a body, and neither the product name nor any dependency name has a line feed or a final carriage return, the run succeeds. Its text read line by line is the copyright line, the SPDX line, the title, an empty line, the intro, an empty line, then each dependency's section lines in sorted order, with an empty line between sections |
| Header.CreatedYearText | scripts/generate_acknowledgements.js:60-65 | The creation year is written as `2021` |
| Header.YearRange | scripts/generate_acknowledgements.js:60-65 | In 2021 the range is `2021`. In any other year it is `2021-` followed by canonical integer text (no leading zero, no `-0`) that reads back as the current year; by Decimal.CanonicalTextUnique that text is exactly how `${currentYear}` writes the year |
| Header.YearRangeHasNoBreak | scripts/generate_acknowledgements.js:62-65 | The year range contains no line feed |
| Header.CopyrightLine | scripts/generate_acknowledgements.js:68 | The copyright line around the year range; CopyrightLineIsSingle and LicenseComment state it is one line and the comment's first |
| Header.CopyrightLineIsSingle | scripts/generate_acknowledgements.js:68 | The copyright line holds no line feed and does not end in a carriage return |
| Header.LicenseComment | scripts/generate_acknowledgements.js:59-71 | The comment is exactly two lines: the copyright line with the year range, then the SPDX line |
| Header.Intro | scripts/generate_acknowledgements.js:92 | The sentence `<product> makes use of the following open source projects.`; IntroIsSingle states it is one line for a single-line product name, and DocumentLines and OutputLines place it as the fifth line of the document |
| Header.IntroIsSingle | scripts/generate_acknowledgements.js:92 | For a product name with no line feed and no final carriage return, the intro holds no line feed and does not end in a carriage return |
| Header.PreambleLinesAreSingle | scripts/generate_acknowledgements.js:88-93 | When the product name has no line feed and no final carriage return, none of the six lines before the sections contains a line feed or ends in a carriage return |
| Text.Trim | scripts/generate_acknowledgements.js:50 | The trimmed line is empty iff the line is all whitespace; otherwise it starts and ends with non-whitespace and takes its characters from the line |
| Text.TrimIsSlice | scripts/generate_acknowledgements.js:33 | The trimmed text is a contiguous slice of the original that drops only whitespace at both ends |
| Text.TrimIdempotent | scripts/generate_acknowledgements.js:50 | Trimming twice is trimming once |
| Text.SplitLines | scripts/generate_acknowledgements.js:49 | Splitting gives at least one line, and no line contains a line feed |
| Text.SplitLinesCount | scripts/generate_acknowledgements.js:49 | The number of lines is one more than the number of line feeds |
| Text.SplitJoinLf | scripts/generate_acknowledgements.js:49 | Splitting undoes joining lines with `\n`, provided no line contains a line feed and no line but the last ends in a carriage return, which the split would read as part of `\r\n` |
| Text.SplitJoinCrLf | scripts/generate_acknowledgements.js:49 | Splitting undoes joining with `\r\n` lines without line feeds |
| Text.JoinSplitLf | scripts/generate_acknowledgements.js:49 | Joining with `\n` undoes splitting text that has no carriage return |
| Text.InterleaveSplit | scripts/generate_acknowledgements.js:49 | Any text, whatever its mix of `\n` and `\r\n`, is its pieces with the consumed line breaks between them, each break `\n` or `\r\n` |
| Text.SplitInterleave | scripts/generate_acknowledgements.js:49 | Splitting gives back lines joined by any mix of `\n` and `\r\n`, provided no line holds a `\n` and no line before a bare `\n` ends in `\r` |
| Text.Join | scripts/generate_acknowledgements.js:56 | `Array.prototype.join`; JoinAppend states how it splits over a concatenation, and the split lemmas state what reads it back |
| Text.JoinAppend | scripts/generate_acknowledgements.js:56 | Joining two non-empty lists concatenated is joining each and putting one separator between them |
| Ordering.Sort | scripts/generate_acknowledgements.js:76 | The sort returns a permutation of its input |
| Ordering.SortSorted | scripts/generate_acknowledgements.js:76 | The sort's result is in ascending order |
| Ordering.SortedUnique | scripts/generate_acknowledgements.js:76 | Two sorted permutations of the same strings are equal, so any sort by this order gives the same list |
| Ordering.StrictlyAscending | scripts/generate_acknowledgements.js:76 | A sorted list without duplicates is strictly ascending |
| Ordering.AtOrBeforeTotal | scripts/generate_acknowledgements.js:76 | Any two strings are comparable |
| Ordering.AtOrBeforeAntisymmetric | scripts/generate_acknowledgements.js:76 | Strings that each sort at or before the other are equal |
| Ordering.AtOrBeforeTransitive | scripts/generate_acknowledgements.js:76 | The order is transitive |
| Ordering.AtOrBefore | scripts/generate_acknowledgements.js:76 | The default sort's string order; AtOrBeforeTotal, AtOrBeforeAntisymmetric and AtOrBeforeTransitive state that it is a total order |
| Decimal.NatToString | scripts/generate_acknowledgements.js:65 | A natural number is written as at least one digit, with a leading `0` only for zero itself, which is then the single digit `0` |
| Decimal.NatToStringRoundTrip | scripts/generate_acknowledgements.js:65 | Reading back a natural number's digits gives the number |
| Decimal.IntToStringRoundTrip | scripts/generate_acknowledgements.js:65 | An integer is written as canonical integer text (no leading zero unless it is 0, no `-0`), with a leading `-` iff it is negative, and the text reads back as the integer |
| Decimal.CanonicalTextUnique | scripts/generate_acknowledgements.js:65 | Every canonical integer text is the text written for the number it denotes, so writing and reading are inverse between the integers and the canonical texts |
| Decimal.DigitsCanonical | scripts/generate_acknowledgements.js:65 | A digit string without leading zeros is the numeral written for its value |
| Decimal.DigitsPositive | scripts/generate_acknowledgements.js:65 | A digit string with a nonzero leading digit denotes a positive number, so no negative zero reads back |

## Left out

- Filesystem access (`readdir`, `readFile`, `writeFile`) and `require('../package.json')`: their results are inputs to the model (the dependency keys, the product name, the `Installed` map), and writing the file is not modelled.
- JSON parsing: a dependency's `package.json` is taken as already parsed into its `license` field. A missing or unparsable `package.json` of an installed dependency, and a `license` value that is not a string, are not modelled.
- `productName: null`: destructuring defaults apply only to `undefined`, so `null` would print as `null`. The model's `Option` covers only present and absent.
- Prettier: `resolveConfig` and `format` are external code; the model stops at `unformatted_output`.
- `new Date().getFullYear()`: the current year is a parameter.
- p-map concurrency (100 at a time) and the two-minute timeout are not modelled. When several dependencies fail, the real run reports whichever rejects first in time; the model reports the first in sorted order.
- Process exit and the error log in `main().catch` are not modelled; a failure is the `Err` result.
- Ordering.AtOrBefore compares whole characters. JavaScript compares UTF-16 code units, which orders differently only for names with characters outside the Basic Multilingual Plane.
- Acknowledgements.FoldCase folds ASCII letters only. This is exact for this pattern: without the `u` flag, `/i` never folds a non-ASCII character onto an ASCII one.
- The order of `Object.keys`: the keys are a sequence, and Acknowledgements.DependencyNamesIgnoreKeyOrder shows their order has no effect.
- Acknowledgements.UnformattedOutput has no postcondition of its own. Its behaviour is stated by OutputIsFanOut, OutputIsDocument, OutputFailsExactly and OutputLines.
- Decimal.IntToString has no postcondition of its own; Decimal.IntToStringRoundTrip states what it produces.
