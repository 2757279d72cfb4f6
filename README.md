# gmodfastdl in Dafny

gmodfastdl is a command-line tool for Garry's Mod servers. It walks the server's
`garrysmod/addons` folder and collects every model, material, texture and sound file
(`.mdl`, `.vmt`, `.vtf`, `.wav`, `.mp3`). It can also read the items of a Steam
Workshop collection. From both it writes a Lua script, `fastdl.lua`, that declares
each file to the game's FastDL mechanism with `resource.AddFile(...)`.

This project models the string pipeline at the heart of the tool (all in
`gmodfastdl.go`) and proves properties of it:

- `ConcatDir`, which joins path components with the OS separator
  (`concat_dir.dfy`, module `Dirs`);
- the `filepath.Walk` callback that keeps the files of the five allowed types, in walk
  order (`asset_filter.dfy`, module `AssetFilter`);
- the loop over the collected paths (`normalize.dfy`, module `Normalize`). It
  rewrites separators to `/` and strips the `<gmodPath>/addons/` prefix. It drops
  paths under a numbered staging folder (regular expression `.*_\d{6,}\/.*`). It keeps
  the text after the first `/` (first group of `.*?\/(.*)`). Both expressions are
  written out by hand, following the semantics of Go's RE2 engine;
- the assembly of the script block `if ( SERVER ) then` … `end`, and a parser that
  reads the declared paths back out of it (`script.dfy`, module `Script`);
- the formatting loop of `GetWorkshopAddons`, and a parser for its lines
  (`workshop.dfy`, module `Workshop`);
- the line cleanup of `Scanln` (`input.dfy`, module `Input`);
- the text `main` writes, `workshopContent + fastdlString`, and a reader that takes
  that text apart again (`fastdl.dfy`, module `FastDL`).

The Go library calls the pipeline relies on are pure functions in `strings.dfy`
(module `Strings`): `strings.Replace` with one-character arguments,
`strings.TrimPrefix`, RE2's `\d` class, and "text up to the first occurrence of a
character".

The loops of the source are methods with `for` loops. They are `ConcatDir`, the
walk's appends, the `fastdlString +=` loop and the `addonString +=` loop. Each method
is proved equal to a recursive specification function, and the properties are
proved as lemmas about those functions.

Inputs the program gets from its environment become parameters:

- the entries the walk visits, as a sequence of `Entry` values;
- `os.PathSeparator`, as `osSep`;
- the content root, as `gmodPath`;
- the workshop items the page's regular expression matched, as a `WorkshopItem`
  sequence, or `None` when the request failed;
- the line read from standard input, and whether the read failed.

The regular expression `.*?\/(.*)` is modelled exactly, newlines included. Go's `.`
does not match a newline, so the group ends at the first newline after the first `/`.
Every declaration is therefore a single line. The simpler reading, "everything after
the first `/`", is proved under the assumption that the path holds no newline
(`Normalize.DeclarationIsSuffix`).

## Model

| member | source | states |
|---|---|---|
| `Dirs.ConcatDir` | gmodfastdl.go:181-190 | The loop's result is `Join(dirs, sep)`: the components in order, with one separator between neighbours and no separator added at either end. |
| `Dirs.JoinAppend` | gmodfastdl.go:183-188 | Joining two non-empty runs of components puts exactly one separator between their joins. |
| `Dirs.JoinLength` | gmodfastdl.go:181-190 | Zero components give `""` and one component gives itself. n > 0 components give a path as long as the components' lengths plus n − 1. |
| `Dirs.JoinEnds` | gmodfastdl.go:181-190 | The joined path starts with the first component and ends with the last one, so no separator is added at either end. |
| `Dirs.SplitJoin` | gmodfastdl.go:183-188 | Components without the separator come back when the joined path is cut at every separator, so exactly one separator lies between consecutive components. |
| `Dirs.JoinSplit` | gmodfastdl.go:183-188 | Joining the pieces of any path cut at the separator gives the path back. |
| `AssetFilter.Visit` | gmodfastdl.go:73-87 | The callback keeps an entry if and only if it has no error, is not a directory, and its name matches `*.<ext>` for one of the allowed types. |
| `AssetFilter.Collect` | gmodfastdl.go:73-88 | The paths the walk appends to `fastdl` are exactly the asset entries' paths, in walk order. |
| `AssetFilter.CollectedAppend` | gmodfastdl.go:81-86 | Collecting distributes over concatenation of walks: each entry contributes its own path at most once, and walk order is kept. |
| `AssetFilter.CollectedMembers` | gmodfastdl.go:73-87 | A path is collected if and only if some asset entry of the walk has it. |
| `AssetFilter.TypesExclusive` | gmodfastdl.go:25-31 | No name matches two of `mdl, vmt, vtf, wav, mp3`, so stopping at the first match decides nothing. |
| `Normalize.Slashes` | gmodfastdl.go:96-97 | Same length. Every OS separator and every `\` becomes `/`, all else stays. Afterwards neither `\` nor the OS separator remains. |
| `Normalize.SlashesIdempotent` | gmodfastdl.go:96-97 | Rewriting the separators again changes nothing. |
| `Normalize.SlashesAppend` | gmodfastdl.go:96-97 | The rewrite works position by position, so it distributes over concatenation. |
| `Normalize.SlashesJoin` | gmodfastdl.go:96-97 | A walk path, its components joined by the OS separator, comes out as the same components joined by `/`. |
| `Normalize.NormalizedIdempotentIff` | gmodfastdl.go:96-98 | Normalising a normalised path again leaves it unchanged if and only if it does not start with the addons prefix once more. |
| `Normalize.NormalizeTwiceDiffers` | gmodfastdl.go:98 | A path naming `<gmodPath>/addons/` twice normalises to a path that normalises further, so normalisation is not idempotent in general. |
| `Strings.TrimPrefix` | gmodfastdl.go:98 | A path that starts with the prefix loses exactly that prefix; any other path is unchanged. |
| `Normalize.MatchesStagingIff` | gmodfastdl.go:99 | The executable matcher accepts a path if and only if it contains `_`, then six or more digits, then `/` (the unanchored `.*_\d{6,}\/.*`). |
| `Normalize.SubmatchAfterSlash` | gmodfastdl.go:100-102 | There is no match exactly when the path holds no `/`. A match's group holds no newline. |
| `Normalize.StagingPathDropped` | gmodfastdl.go:99-107 | A normalised path with a staging folder never yields a declaration. |
| `Normalize.OtherPathDeclared` | gmodfastdl.go:99-106 | Any other path yields one declaration if it holds a `/`: the text after the first `/`, up to a newline. It yields none if it holds no `/`. |
| `Normalize.DeclarationIsSuffix` | gmodfastdl.go:100-103 | For a path without newlines and staging folder, the declaration is the whole suffix after its first `/`. |
| `Normalize.NormalizedUnderAddons` | gmodfastdl.go:96-98 | A path `<gmodPath>/addons/<p>` already in `/` form normalises to `p`. |
| `Normalize.AddonFileDeclared` | gmodfastdl.go:95-105 | A file `<gmodPath>/addons/<addon>/<rel>`, root included in `/` form, outside any staging folder is declared as `rel`. |
| `Normalize.StagingFolderFileDropped` | gmodfastdl.go:95-107 | A file whose path, root included, is in `/` form is dropped when it lies below a folder whose name ends in `_` and six or more digits, wherever that folder sits. |
| `Normalize.BackslashRootNeverTrimmed` | gmodfastdl.go:96-98 | As written: when the separator is `\` and the root holds a `\`, the prefix is never stripped, so the path stays the whole rewritten walk path. |
| `Normalize.BackslashRootDeclaresFullPath` | gmodfastdl.go:95-103 | As written: with a root typed at lines 55-59 as folders joined by `\` on a `\` system, a walk file is declared with the root's later folders and `addons/` in front of its path in the addon. |
| `Normalize.IntendedAgrees` | gmodfastdl.go:98 | With a root typed in `/` form, the declaration with the corrected prefix equals the one the program computes. |
| `Normalize.IntendedWalkFileDeclared` | gmodfastdl.go:73-103 | With the prefix built from the rewritten root, a file the walk reports below `ConcatDir(gmodPath, "addons")` is declared as its path in the addon, in `/` form, however the root was typed. |
| `Normalize.AcceptedAppend` | gmodfastdl.go:95-108 | The accepted declarations of two runs of paths are those of the first followed by those of the second: order and duplicates are kept. |
| `Normalize.AcceptedSnoc` | gmodfastdl.go:95-108 | One more path adds its own declaration, if it has one, at the end. |
| `Normalize.AcceptedSingleLine` | gmodfastdl.go:100-103 | No accepted declaration holds a newline, so each one fills exactly one script line. |
| `Script.EmitBlock` | gmodfastdl.go:94-109 | The loop's text is the header, one `    resource.AddFile('<p>')` line for each accepted path in discovery order with duplicates kept, then `end`. |
| `Script.BodySnoc` | gmodfastdl.go:95-108 | One more path adds its declaration line, or nothing, to the end of the body. |
| `Script.BodyRoundTrip` | gmodfastdl.go:103 | Stripping the `    resource.AddFile('` … `')` wrapper from each body line recovers the paths in order, with their repetitions. |
| `Script.BlockRoundTrip` | gmodfastdl.go:94-109 | The whole block, header and `end` included, reads back as its declared paths. |
| `Script.EmittedBlockRoundTrip` | gmodfastdl.go:94-109 | The block the loop emits always reads back as the accepted declarations. |
| `Workshop.GetWorkshopAddons` | gmodfastdl.go:221-246 | A failed request gives `""` and an error. Otherwise there is no error, and each `(id, title)` pair, in match order, gives `resource.AddFile('<id>') -- <title>` plus a newline. No pairs give `""`. |
| `Workshop.ParseWorkshopLineInverts` | gmodfastdl.go:237-240 | A scraped item's line, without its newline, reads back as the item. |
| `Workshop.WorkshopLineRoundTrip` | gmodfastdl.go:237-242 | A scraped item's line ends at its own newline, reads back as the item, and leaves the text after it untouched. |
| `Input.StripLineEnds` | gmodfastdl.go:198-199 | The cleaned line holds no `\n` and no `\r`. |
| `Input.StripLineEndsKeepsOthers` | gmodfastdl.go:198-199 | Deleting `\n` and then `\r` equals one pass that drops line ends and keeps every other character in order. |
| `Input.StripLineEndsUnchanged` | gmodfastdl.go:198-199 | A line comes through unchanged if and only if it has no line ends, and cleaning twice is cleaning once. |
| `Input.Scanln` | gmodfastdl.go:192-201 | A failed read gives `""`. Otherwise the result is the line without its line ends, all other characters in order. |
| `FastDL.Generate` | gmodfastdl.go:37-109 | The text written at lines 124, 143 and 162 is the workshop lines followed by the FastDL block. The workshop part is empty when no id was given or the request failed. |
| `FastDL.OutputRoundTrip` | gmodfastdl.go:124 | Workshop lines of scraped items followed by a block read back as exactly those items and paths. |
| `FastDL.GeneratedTextParses` | gmodfastdl.go:37-124 | Whatever the walk and the page, the generated text reads back as the scraped items followed by the accepted paths in walk order. |

## Findings

| source | as written | input that shows it | evidently intended | confidence | as-written member | corrected member |
|---|---|---|---|---|---|---|
| gmodfastdl.go:98 | The prefix `gmodPath + "/addons/"` is built from the root exactly as the operator typed it at lines 55-59. Lines 96-97 rewrite only the walk path's `\` to `/`. | On Windows, root typed as `s\g`. The walk reports `s\g\addons\m\x.mdl`, which is declared as `g/addons/m/x.mdl`. | The prefix is built from the root after the same rewrite, and the file is declared as `x.mdl`. | not executed; certain for the modelled functions, typical for a Windows user who types a relative path | `Normalize.BackslashRootDeclaresFullPath` | `Normalize.IntendedWalkFileDeclared` |

The corrected rule is `Normalize.IntendedDeclaration`. `Normalize.IntendedAgrees` proves that it gives the same declarations as the program whenever the root is typed in `/` form, for example the default `garrysmod`. `Script.EmitBlock` and `FastDL.Generate` keep the prefix as written, because they describe what the program writes.

## Left out

- The HTTP request, the read of the response body and the HTML regular expression of `GetWorkshopAddons` (gmodfastdl.go:222-233): these are network I/O plus a general regular-expression engine over HTML. The model starts from the matched `(id, title)` pairs, or `None` when the request or the read failed.
- The traversal of `filepath.Walk` and the `os.Stat` checks (gmodfastdl.go:52-70, 73, 112, 120): filesystem I/O. The walk is given as the sequence of entries it visits, in its order, with the paths it reports.
- The error `filepath.Walk` itself returns, and the message the callback prints on an entry error (gmodfastdl.go:75, 88-92): the callback always returns nil, so only the status message depends on it.
- Creating `lua/autorun/server`, writing `fastdl.lua` and echoing the text to the terminal when the write fails (gmodfastdl.go:111-176): filesystem side effects. The model stops at the text that is written, `workshopContent + fastdlString`.
- The Y/n confirmation, `strings.ToLower` and `os.Exit` when no workshop id is given, and the loop that prompts until an existing addons folder is named (gmodfastdl.go:37-41, 55-69): terminal I/O with no bound on the number of prompts. `FastDL.Generate` takes the content root as a parameter and assumes the operator agreed to continue.
- The coloured status output (`PrintSuccess`, `PrintFail`, `PrintWarning`, gmodfastdl.go:203-219) and the prompt printed by `Scanln` (gmodfastdl.go:193): UI only.
- Flag parsing (gmodfastdl.go:34-35): a library wrapper. The workshop id is a parameter.
- `os.PathSeparator` is the parameter `osSep`. The lemmas about concrete addon paths assume it is `/` or `\`, as on the platforms Go supports.
- The `len(addon) >= 1` and `len(addon) >= 2` guards of `GetWorkshopAddons` (gmodfastdl.go:236-241): the page expression has two groups, so every match has three elements and both guards always hold. The model treats both appends as unconditional.
- Normalize.AddonFileDeclared: stated for a root and an addon path without `\`. A root typed with `\` on Windows is the finding above, and `Normalize.IntendedWalkFileDeclared` covers walk paths in any separator form.
- Normalize.StagingFolderFileDropped: stated for a root and a path without `\`, like `Normalize.AddonFileDeclared`.
- Normalize.NormalizedIdempotentIff: re-normalising a normalised path gives the same string only when that path does not start with `<gmodPath>/addons/` again. `Normalize.NormalizeTwiceDiffers` gives a path for which it changes, so unconditional idempotence does not hold.
- `filepath.Walk` cleans the paths it reports, so a content root typed as `./garrysmod` or `garrysmod/` would not be found as a prefix at line 98. The model takes the reported paths as given, so this interaction is not captured.
