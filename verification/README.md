# luno-assets asset pipeline, modelled in Dafny

The luno-assets repository keeps its icons as SVG files. Two Node scripts
look after them.

`scripts/format.js` does the conversion.
- It counts the image files of the `sources/` tree. A file is an image when
  its lower-cased extension is one of `.png`, `.jpg`, `.jpeg`, `.webp` or
  `.svg`.
- It walks every top-level subdirectory of `sources/` and mirrors it under
  `assets/`.
- It copies each SVG as it is.
- In place of every other image it writes a grey 100×100 placeholder SVG
  labelled with the file's base name.
- It counts the files it processed, copied, converted and failed on, and
  draws a 30-character progress bar after each file.

`scripts/verify.js` checks the result.
- It walks `assets/` and counts directories, files, SVG files and other
  files.
- It reads every SVG and warns when the text lacks `<svg` or `</svg>`.
- It exits with status 1 exactly when some file is not an SVG.

The model treats a filesystem tree as a value:
`Tree.Node = File(name, content) | Dir(name, children)`. A directory's
children come in `readdirSync` order. The walk of `format.js` is a pure
function. It threads the assets listing built so far, the statistics, and
a flag that says an exception ended the run.

Filesystem behaviour becomes explicit rules:
- A write replaces a same-named entry.
- Writing onto a directory fails.
- When a mirror directory's path is already taken by a file, `existsSync`
  is satisfied and nothing is created. Every write below that path then
  fails and is counted as an error. The first subdirectory below it makes
  `mkdirSync` throw, which ends the whole run.
- Per-file I/O failures come from a parameter: `failing` is the set of
  source paths whose copy or write throws. Such a failure is taken to
  happen before the target file is opened, so it leaves the assets listing
  unchanged.
- Read failures in the verifier also come from a parameter: `unreadable`.

Modules:
- `Options`: the option type.
- `Paths`: `path.extname`, `path.basename(p, ext)`, ASCII lower-casing, and
  the extension allow-list.
- `Text`: substring search, decimal rendering, character runs.
- `Tree`: nodes, lookup and overwrite in a listing, and the files and
  directories at every depth.
- `Progress`: `updateProgressBar`.
- `Format`: `scripts/format.js`.
- `Verify`: `scripts/verify.js`.
- `RoundTrip`: what the verifier says about a tree the converter wrote.

## Model

| member | source | states |
|---|---|---|
| Paths.ExtName | scripts/format.js:109-110 | The extension is empty, or a proper suffix of the name that starts at its last dot. It is empty exactly when the name is `..` or has no dot after its first character. A leading dot alone (`.svg`) is no extension. |
| Paths.BaseName | scripts/format.js:47 | The suffix is stripped exactly when it is non-empty, shorter than the name, and matches the name's end case-sensitively. Otherwise the name comes back whole. |
| Paths.SvgSuffixExtension | scripts/format.js:48 | Appending `.svg` to a non-empty stem gives a name whose extension is `.svg`, so the name is an SVG name. |
| Format.ProcessImageFile | scripts/format.js:45-68 | Processed rises by one. Exactly one of copied, converted or errors rises. An error happens exactly when the write fails, and then the listing is unchanged. Otherwise the target name maps to the written file and no other name changes. A copy happens only for an SVG and a conversion only for another image. |
| Format.TargetName | scripts/format.js:46-48 | The written name always has the extension `.svg`. An SVG keeps its name. Another image with a lower-case extension loses it and gains `.svg`. One with any upper-case letter in the extension keeps it and gains `.svg` after it, because the basename strip is case-sensitive against the lower-cased extension. |
| Format.TargetNameExamples | scripts/format.js:46-48 | `logo.png` becomes `logo.svg`, `logo.PNG` becomes `logo.PNG.svg`, and `icon.SVG` stays `icon.SVG`. `logo.jpg` and `logo.png` share a target name. |
| Format.PlaceholderOfConverted | scripts/format.js:55-56 | A converted image's content is the 100×100 placeholder. Its label is the written name without its final `.svg`. |
| Format.PlaceholderSvg | scripts/format.js:26-31 | A placeholder of any size contains `<svg`, `</svg>` and its label. |
| Format.PlaceholderIs100By100 | scripts/format.js:26-27 | Every placeholder opens with `<svg width="100" height="100"`. |
| Format.CountImageFiles | scripts/format.js:70-92 | The pre-count equals the number of files in the allow-list at every depth, subdirectories included. |
| Format.ImageFilesSplit | scripts/format.js:133-136 | The image files of a tree are those under its top-level subdirectories plus those directly at its root. |
| Format.ProcessEntries | scripts/format.js:100-114 | Across the walk of one directory the total stays fixed and no counter falls. Processed equals copied + converted + errors. Processed rises by the number of image files below the directory, or by fewer only when an exception ended the run. Under a mirror path taken by a file nothing is written. |
| Format.ProcessDirectory | scripts/format.js:94-107 | Ensuring the mirror and walking a subdirectory keeps the same counter laws for the image files below it. |
| Format.Main | scripts/format.js:129-143 | The total is the pre-count of the whole sources tree. Processed = copied + converted + errors, and processed never exceeds the total. When the run completes, total minus processed is exactly the number of image files directly in the sources root, which no walk visits. |
| Format.PruneEntries | scripts/format.js:106-113 | Removing every file outside the allow-list, at any depth, changes neither the assets tree written nor any counter. |
| Format.EntriesKeep | scripts/format.js:102-113 | If every file already in the assets tree has some property, and every file the walk would write for an image has it too, every file of the assets tree has it after the walk, however it ended. |
| Format.MainMirrors | scripts/format.js:94-98 | Nothing already under assets disappears. When the run completes, every directory path of every top-level subdirectory exists under assets at the same relative path. |
| Format.WritesEntries | scripts/format.js:50-58 | When the walk of a directory ends without an exception and without a new error, every image below it was written at its relative path under its target name, and that path still exists at the end. Later writes may replace the file but never remove the path. Such a walk under a mirror taken by a file has no image below it. |
| Format.MainWritesEveryImage | scripts/format.js:141-143 | When the run completes with no error, the path of every image below a top-level subdirectory exists under assets, with the image's target name as its last part. |
| Format.BlockedEntries | scripts/format.js:98-111 | Under a mirror path taken by a file nothing is written and nothing is copied or converted, so every image file there is an error. The run ends exactly when some entry there is a subdirectory. |
| Format.SameTargetOverwrites | scripts/format.js:48-56 | Two image files of one directory with the same target name are both processed without error. Only the later one's file remains, and no other entry is created. |
| Format.PlaceholderTakesDirectoryName | scripts/format.js:94-98 | A placeholder named like a sibling directory walked after it keeps the mirror path. That directory is never created. The run ends exactly when the directory has subdirectories. |
| Progress.BarOf | scripts/format.js:33-40 | Filled plus empty is 30. Filled is the floor of 30 × processed / total, and percentage is the floor of 100 × processed / total, each stated by its two bounding inequalities. |
| Progress.BarBounds | scripts/format.js:34-40 | With processed ≤ total, filled lies in 0..30 and percentage in 0..100. |
| Progress.BarMonotone | scripts/format.js:34-40 | More processed files never shorten the bar or lower the percentage. |
| Progress.Render | scripts/format.js:38-42 | The first 32 characters are `[`, `filled` `=` characters, the `>` head and spaces up to index 31. From index 32 on comes `] `, the percentage, `% \| `, the processed count, `/`, the total and ` files`. |
| Progress.RenderPercentageReadsBack | scripts/format.js:40-42 | The digit run right after `] ` ends at a `%` and reads back as the bar's percentage. |
| Progress.FullBar | scripts/format.js:35-42 | When every file is processed, the bar is 30 `=` followed by `>]`. |
| Text.DecimalRoundTrip | scripts/format.js:27 | Reading back the decimal text of a number gives the number. |
| Verify.VerifyFile | scripts/verify.js:29-47 | The file count rises by one and exactly one of SVG or non-SVG rises. Non-SVG rises exactly when the lower-cased extension is not `.svg`. Earlier reports are kept. |
| Verify.CheckSvg | scripts/verify.js:35-43 | The content check of one SVG gives at most one report, about that path, and never a non-SVG report. It gives none exactly when the file can be read and its text holds both `<svg` and `</svg>`. |
| Verify.VerifyEntries | scripts/verify.js:16-50 | Across the walk of one directory no counter falls, and every file counted is counted as exactly one of SVG or non-SVG. |
| Verify.ExitCode | scripts/verify.js:60-65 | The exit status is 0 or 1. It is 0 exactly when no non-SVG file was counted. |
| Verify.Verify | scripts/verify.js:16-50 | Total files = SVG files + non-SVG files. |
| Verify.VerifyEntriesCounts | scripts/verify.js:16-50 | The counters are the number of files, SVG files, other files and directories at every depth of the tree, whatever the files contain. |
| Verify.ContentCheckOnlyWarns | scripts/verify.js:35-43 | Two trees of the same shape get the same counters and the same exit status. Same shape means the same directories and file names in the same order. This holds whatever the files contain and whichever of them can be read. |
| Verify.BrokenSvgOnlyWarns | scripts/verify.js:35-40 | An SVG whose text lacks a tag is still counted as one SVG file. It draws exactly one warning, and the run passes. |
| Verify.VerdictIffNonSvgFile | scripts/verify.js:60-65 | The exit status is 1 exactly when some file at some depth has a non-`.svg` extension in every letter case. It is 0 exactly when all files have one. |
| Verify.UpperCaseSvgCounts | scripts/verify.js:31-33 | `logo.SVG` counts as one SVG file and no non-SVG file. |
| Verify.InjectedFileFails | scripts/verify.js:44-46 | Adding one non-SVG file to a tree that passes gives exactly one non-SVG file and exit status 1. |
| Verify.CleanEntriesNoReports | scripts/verify.js:35-46 | A tree whose files are all readable SVGs carrying both tags draws no report at all. |
| RoundTrip.WrittenIsSvg | scripts/format.js:45-58 | Every file written for an image has a `.svg` extension. |
| RoundTrip.ConvertThenVerify | scripts/verify.js:31-47 | After conversion into an assets tree holding only SVG names, even a conversion cut short or with failed files, the verifier finds no non-SVG file and exits with 0. |
| RoundTrip.CleanRoundTrip | scripts/verify.js:35-46 | Suppose conversion starts from an empty assets tree and every source SVG carries both tags. If every output can be read, the verifier then writes no report at all, not even a warning. |

## Left out

- Filesystem calls are not performed. `readdirSync`, `statSync`, `existsSync`, `mkdirSync`, `copyFileSync`, `writeFileSync` and `readFileSync` are rules over the tree value. Only some of their failures are modelled: a copy or write of one file fails when its source path is in `failing`, a read in the verifier fails when its path is in `unreadable`, and `mkdirSync` throws when a file takes the mirror's place. Other failures are not modelled: `readdirSync` or `statSync` failing on the sources tree, and `mkdirSync` failing for another reason such as a denied permission or a full disk. In the program each of these ends the run through the `catch` in `main` (scripts/format.js:146-149).
- Format.ProcessImageFile: a failed copy or write is modelled as failing before the target is opened, so the listing is unchanged. In Node, `writeFileSync` truncates the target first and can leave it empty or partial when the write then fails. A failed `copyFileSync` can remove the destination. So the listing after a failure is promised only under that assumption.
- RoundTrip.CleanRoundTrip: when `failing` is not empty, holds only under the assumption above. A partly written placeholder would lack `</svg>` and draw a warning.
- Format.MainMirrors: the promise that nothing already under assets disappears holds only under the same assumption, because a failed copy in Node can remove the file it was replacing.
- Listing order is an input, not a free choice: children are walked in the order the tree value gives them. The model does not abstract it away, because which file survives a name collision, and whether a write meets a directory or a placeholder, depend on it.
- Path strings are not modelled. `path.join` and `path.dirname` become paths given as sequences of names. Symbolic links, and the cycles they can form, cannot occur in the tree value.
- Image contents are not examined. A source file's content is only copied (SVG) or ignored (other images).
- Console output is left out: the summary text, the error and warning lines, and the `\r` of the progress line. The verifier's warnings are kept as a list of reports, in walk order.
- `Date.now()`, `startTime` and the duration printed by `printSummary` are clocks and are left out.
- Three exception paths are left out. The first is the converter's `catch` in `main`, which reports a fatal error and exits with 1. The second is the verifier's exit when the assets directory is missing (scripts/verify.js:70-73). The third is the verifier's `catch` (scripts/verify.js:77-80): a traversal error, such as an unreadable subdirectory, becomes exit status 1, which `Verify.ExitCode` never returns. The converter's model stops at the exception (`Walk.aborted`) and keeps what was written so far.
- `process.exit` is modelled only as the verifier's exit code: `Verify.ExitCode`.
- Progress.BarOf: computes the exact floor of the rational ratio. The source divides in floating point first, so for some ratios it shows one less. For 29 of 100 files, JavaScript computes 0.29 × 100 as 28.999999999999996 and shows 28% where the model says 29%.
- Progress.Render: requires at least one file in total and no more processed than total. With no files the source never draws a bar, because `updateProgressBar` runs only after a file is processed. Beyond the total, `repeat` would throw.
- Format.MainMirrors: states that every source directory's path exists under assets, not that it is a directory. When a placeholder is written under a sibling directory's name first, that path is a file, and Format.PlaceholderTakesDirectoryName describes what follows.
- The converter does not produce one output file per input file. Two images with the same target name overwrite each other (Format.SameTargetOverwrites).
- Format.MainWritesEveryImage: states that each target path exists, not which image its file came from or that it is a file.
- Names compare exactly, as on a case-sensitive filesystem. On a case-insensitive one, `logo.svg` and `LOGO.svg` written into one directory would collide, and the model does not show that.
- Running the converter twice is not shown to give the same tree.
- Lower-casing is ASCII only. That is exact for the allow-list and for `.svg`, but not for names with non-ASCII extensions.
