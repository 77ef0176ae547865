# file-io, modelled in Dafny

A model of the core of the `file-io` TypeScript library, with proofs about it. The library is a
set of filesystem helpers for Node scripts. The model covers these parts:

- **Package-root resolution** (`getPackageDirectorySync`). It walks up from a start directory,
  collecting `package.json` files closest-first. It decodes each one, keeping a decode failure as
  an error message. It then picks the nearest, the outermost, or the "caller or caller's
  consumer" package directory.
- **Filesystem commands** over an abstract filesystem:
  - `writeSync`, `copyFileSync`, `removeDirectory`, `removeFileSync` and `removeFile`;
  - the three `backupFileSync` variants, with their bounded name-probing loops and zero-padded
    date stamps;
  - the current and the old `fileIoSyncNode` adapters.
- **JSON reading**: `readJsonFile` and both copies of `readJsonFromFile`. The parser and the file
  read are parameters.
- **Path helpers**: `stripTrailingSep`, `absolute`, `relative`/`inferIsDirectory` and
  `pathInfoSync`. Node's `path.posix` functions are modelled on `/`-separated strings.
- **User input**: the question chain of `BaseUserInput.ask`, and the scripted `TestUserInput`.

The filesystem is a map from a path (a sequence of names) to an entry, either a file with its
content or a directory. `FileSystem.Tree` holds the invariant that the root is a directory and that
every entry's parent is one. Each command comes in two parts:

- a function `...Effect(t, cwd, ...)` that gives the answer and the new map;
- a method on `FileSystem.Disk` (fields `entries` and `cwd`) that updates the map in place and
  promises the function's result.

The lemmas state the promises of the source and its tests in terms of those functions. The
clock, the working directory, the directory listing, the file read, the JSON parser and the
interactive prompts are parameters. A thrown error is the `Threw(message)` case of
`Outcomes.Completion`.

## Model

| member | source | states |
|---|---|---|
| TrailingSep.StripTrailingSep | src/commands/file/strip-trailing-sep/stripTrailingSep.ts:3-6 | the result is a prefix of the input, at most one character shorter, shorter exactly when the input ends with '/', and it is the input or the input minus that final '/' |
| TrailingSep.NotIdempotent | src/commands/file/strip-trailing-sep/stripTrailingSep.ts:5 | only one separator goes: 'a//' gives 'a/', and a second call gives 'a' |
| TrailingSep.StableWithoutTrailingSep | src/commands/file/strip-trailing-sep/stripTrailingSep.ts:5 | once the result no longer ends with '/', stripping again changes nothing |
| TrailingSep.RootBecomesEmpty | src/commands/file/strip-trailing-sep/stripTrailingSep.ts:5 | '/' becomes '' |
| AbsolutePath.Absolute | src/commands/file/absolute/absolute.ts:17-20 | absolute input keeps its text apart from one trailing '/'; relative input is resolved against the working directory, then stripped |
| AbsolutePath.RootIsEmpty | src/commands/file/absolute/absolute.ts:17-20 | '/' maps to '' |
| AbsolutePath.RelativeInputIsResolved | src/commands/file/absolute/absolute.ts:18-19 | a relative input gives an absolute path without a trailing '/', or '' exactly when it resolves to the root |
| AbsolutePath.EmptyIsWorkingDirectory | src/commands/file/absolute/absolute.ts:18-19 | '' gives the working directory, resolved, without a trailing '/' |
| AbsolutePath.SameLocation | src/commands/file/absolute/absolute.ts:17-20 | a non-empty result names the same location as the input |
| AbsolutePath.OfRendered | src/commands/file/absolute/absolute.ts:17-20 | an already normal absolute path is returned unchanged |
| RelativePath.InferIsDirectory | src/commands/file/relative/relative.ts:54-67 | an existing path is a directory iff stat says so; a missing one is a directory if it ends with '/', a file if it has an extension, and undecided in exactly the remaining case |
| RelativePath.DotPrefix | src/commands/file/relative/relative.ts:51 | './' is prepended unless the text starts with '../' |
| RelativePath.Relative | src/commands/file/relative/relative.ts:33-52 | it throws, with the "Could not detect" message, exactly when no `fromIsDir` is given and inference is undecided |
| RelativePath.StartsWithUp | src/commands/file/relative/relative.ts:51 | a joined path starts with '../' iff it has two or more parts and the first is '..' |
| RelativePath.Tidied | src/commands/file/relative/relative.ts:50-51 | the answer is the raw path when it climbs, '.' when it is empty and './' + raw otherwise; it never ends with '/' and starts with '.' |
| RelativePath.Shape | src/commands/file/relative/relative.ts:36-51 | a returned answer is the tidied `path.relative` from the start directory (the path itself or its dirname) to the target |
| RelativePath.ExplicitOverrides | src/commands/file/relative/relative.ts:37-38 | with `fromIsDir` given, the call never throws and stat is not consulted |
| RelativePath.FileUsesDirname | src/commands/file/relative/relative.ts:48 | a file `from` gives the same answer as its dirname taken as a directory |
| RelativePath.Identical | src/commands/file/relative/relative.ts:50-51 | from a directory to itself the answer is '.' |
| RelativePath.ToParent | src/commands/file/relative/relative.ts:50-51 | from a directory to its parent the answer is './..', not the '..' of the doc comment |
| RelativePath.ToDescendant | src/commands/file/relative/relative.ts:50-51 | to a location below the directory the answer is './' followed by the remaining names |
| PathInfo.FileDirname | src/commands/file/path-info/pathInfoSync.ts:18-19 | the directory of a file is never '.' |
| PathInfo.DropLeadingDot | src/commands/file/path-info/pathInfoSync.ts:27 | one leading '.' is removed, if there is one |
| PathInfo.JoinUri | src/commands/file/path-info/pathInfoSync.ts:31 | the uri is the basename alone when the dirname is empty, else dirname + '/' + basename |
| PathInfo.PathInfoSync | src/commands/file/path-info/pathInfoSync.ts:6-33 | it throws exactly when stat finds nothing, and answers a directory record exactly for a directory |
| PathInfo.DirectoryFields | src/commands/file/path-info/pathInfoSync.ts:9-16 | a directory's uri equals its dirname, which is the path without a trailing '/' |
| PathInfo.FileFields | src/commands/file/path-info/pathInfoSync.ts:18-32 | name + extension with dot = basename; the extension is that without its dot; no extension means name = basename; the uri joins dirname and basename |
| PathInfo.BareName | src/commands/file/path-info/pathInfoSync.ts:19-31 | a name without '/' has dirname '' and uri equal to its basename |
| PathInfo.FileUriRoundTrip | src/commands/file/path-info/pathInfoSync.ts:18-31 | for dir + '/' + name, dirname is dir, basename is name and the uri is the input |
| PathInfo.LastExtensionOnly | src/commands/file/path-info/pathInfoSync.ts:21-27 | 'archive.tar.gz' has name 'archive.tar' and extension 'gz' |
| PathInfo.SiblingUri | src/commands/file/path-info/pathInfoSync.ts:18 | the file's dirname + '/' + another name is that sibling's path |
| Outcomes.Raise | src/commands/file/write/writeSync.ts:64-74 | with `throwError`, a failure is thrown with its own error; any other response is returned unchanged |
| WriteSync.Wrapped | src/commands/file/write/writeSync.ts:108-114 | a caught error is reported as "Cannot write file <path>. Error: …" |
| WriteSync.WriteEffect | src/commands/file/write/writeSync.ts:77-116 | the filesystem stays well formed; every failure other than "Pointed to a directory" carries the "Cannot write file" prefix; a failure leaves every entry as it was and adds at most directories |
| WriteSync.WriteSync | src/commands/file/write/writeSync.ts:64-74 | the entries become those of `WriteEffect`, and the answer is that response, raised when `throwError` is set |
| WriteSync.WriteOnce | src/commands/file/write/writeSync.ts:77-116 | the answer and the new entries are those of `WriteEffect`, and the filesystem stays well formed |
| WriteSync.DirectoryRefused | src/commands/file/write/writeSync.ts:85-86 | writing to an existing directory fails with "Pointed to a directory" and changes nothing |
| WriteSync.AppendToExisting | src/commands/file/write/writeSync.ts:88-92 | appending to an existing file adds the separator, then the content |
| WriteSync.AppendCreates | src/commands/file/write/writeSync.ts:88-92 | appending to a missing file creates it with the bare content |
| WriteSync.OverwriteRefused | src/commands/file/write/writeSync.ts:94-114 | without append or overwrite, an existing file fails with "Cannot overwrite" and keeps its content |
| WriteSync.Overwrites | src/commands/file/write/writeSync.ts:94-105 | with overwrite, the file's content is replaced |
| WriteSync.MakesDirectories | src/commands/file/write/writeSync.ts:98-105 | with `make_directory`, a new file is written and every directory on its path exists afterwards; every earlier entry is kept |
| WriteSync.MissingDirectoryFails | src/commands/file/write/writeSync.ts:98-114 | without `make_directory`, a missing parent makes the write fail and change nothing |
| CopyFileSync.DestinationIsDirectory | src/commands/file/copy-file/copyFileSync.ts:63-69 | the destination is a directory iff it exists as one, or is absent and ends with '/' |
| CopyFileSync.FinalDestination | src/commands/file/copy-file/copyFileSync.ts:71-73 | into a directory, the target is the directory joined with the source's basename; otherwise it is the destination itself |
| CopyFileSync.CopyEffect | src/commands/file/copy-file/copyFileSync.ts:57-93 | the filesystem stays well formed; a failure keeps every entry as it was; a success needs an existing source file |
| CopyFileSync.CopyToFinal | src/commands/file/copy-file/copyFileSync.ts:75-92 | the same, once the final path is known |
| CopyFileSync.CopyFileSync | src/commands/file/copy-file/copyFileSync.ts:57-93 | the answer and the new entries are those of `CopyEffect`, and the filesystem stays well formed |
| CopyFileSync.CopyToFinalPath | src/commands/file/copy-file/copyFileSync.ts:75-92 | the answer and the new entries are those of `CopyToFinal` |
| CopyFileSync.MissingSource | src/commands/file/copy-file/copyFileSync.ts:59-61 | a missing source fails with "Source file does not exist: <source>" and changes nothing |
| CopyFileSync.ExistingKept | src/commands/file/copy-file/copyFileSync.ts:63-77 | without overwrite, an existing final path fails naming that path and changes nothing |
| CopyFileSync.CopiesToFilePath | src/commands/file/copy-file/copyFileSync.ts:71-89 | copying to a file path writes the source content there, creates every missing directory on the way, keeps every other entry and answers that path |
| CopyFileSync.CopiesIntoDirectory | src/commands/file/copy-file/copyFileSync.ts:63-89 | copying into an existing directory writes the directory joined with the source's basename |
| CopyFileSync.CopiesIntoNewDirectory | src/commands/file/copy-file/copyFileSync.ts:63-89 | copying to an absent destination written with a trailing '/' (as `copyFileSync("foo.txt", "backup/")`) answers `<destination>/<basename(source)>`, which then holds the source's content; every directory above it exists and every earlier entry is kept |
| CopyFileSync.NewDirectoryTarget | src/commands/file/copy-file/copyFileSync.ts:67-82 | an absent destination ending in '/' is taken as a directory: the final path is the destination joined with the source's basename, it is absent beforehand, and its directory is made |
| CopyFileSync.CopiesBesideExisting | src/commands/file/copy-file/copyFileSync.ts:71-89 | copying to a new path inside an existing directory adds exactly that file |
| CopyFileSync.DestinationFinal | src/commands/file/copy-file/copyFileSync.ts:63-73 | once the source exists, the copy goes to the destination joined with the source's basename exactly when the destination is an existing directory or is absent and ends with '/'; otherwise it goes to the destination itself |
| CopyFileSync.FinalWritten | src/commands/file/copy-file/copyFileSync.ts:75-89 | with no file above the final path, the copy makes the missing directories above it, writes the source content there, keeps every earlier entry and answers the resolved path |
| CopyFileSync.FinalBesideDirectory | src/commands/file/copy-file/copyFileSync.ts:75-89 | when the final path's directory exists, the copy changes only the final path, which then holds the source content |
| RemoveDirectory.RemoveDirectoryEffect | src/commands/file/remove-directory/removeDirectory.ts:42-61 | the filesystem stays well formed; a failure changes nothing; a success only removes entries |
| RemoveDirectory.RemoveDirectory | src/commands/file/remove-directory/removeDirectory.ts:42-61 | the answer and the new entries are those of `RemoveDirectoryEffect`, and the filesystem stays well formed |
| RemoveDirectory.MissingIsSuccess | src/commands/file/remove-directory/removeDirectory.ts:44-46 | a missing path succeeds and changes nothing |
| RemoveDirectory.NotEmptyRefused | src/commands/file/remove-directory/removeDirectory.ts:48-54 | a non-empty directory without force fails with "Directory <path> is not empty. Skipping deletion." and is untouched |
| RemoveDirectory.FileRefused | src/commands/file/remove-directory/removeDirectory.ts:48-60 | a path to a file fails with "Cannot remove directory" and the file stays |
| RemoveDirectory.RemovesSubtree | src/commands/file/remove-directory/removeDirectory.ts:49-57 | an empty directory, or any directory with force, goes together with everything below it, and nothing else changes |
| RemoveDirectory.EmptyRemovesOnlyItself | src/commands/file/remove-directory/removeDirectory.ts:49-57 | an empty directory is the only entry removed |
| RemoveFileSync.Target | src/commands/file/remove-file/removeFileSync.ts:28 | the path is made absolute before any check; the root names nothing |
| RemoveFileSync.RemoveFileEffect | src/commands/file/remove-file/removeFileSync.ts:27-49 | the filesystem stays well formed; a failure changes nothing; otherwise at most the target entry is removed |
| RemoveFileSync.RemoveFileSync | src/commands/file/remove-file/removeFileSync.ts:17-25 | the entries become those of `RemoveFileEffect`, and the answer is that response, raised when `throwError` is set |
| RemoveFileSync.RemoveOnce | src/commands/file/remove-file/removeFileSync.ts:27-49 | the answer and the new entries are those of `RemoveFileEffect`, including the re-check of existence after removing |
| RemoveFileSync.MissingIsSuccess | src/commands/file/remove-file/removeFileSync.ts:30-32 | a missing path succeeds and changes nothing |
| RemoveFileSync.RootIsSuccess | src/commands/file/remove-file/removeFileSync.ts:28-32 | '/' becomes '' once made absolute, which names nothing, so the call succeeds and changes nothing |
| RemoveFileSync.DirectoryRefused | src/commands/file/remove-file/removeFileSync.ts:34-36 | a directory fails with "Was given a directory…" and is untouched |
| RemoveFileSync.RemovesFile | src/commands/file/remove-file/removeFileSync.ts:38-44 | an existing file is removed and the call succeeds |
| RemoveFileSync.FailsOnlyForDirectory | src/commands/file/remove-file/removeFileSync.ts:27-49 | the call fails exactly when the target is a directory |
| RemoveFile.RemoveFileEffect | src/commands/file/remove-file/removeFile.ts:4-11 | the filesystem stays well formed; a throw changes nothing; a return removes at most the target |
| RemoveFile.RemoveFile | src/commands/file/remove-file/removeFile.ts:4-11 | the outcome and the new entries are those of `RemoveFileEffect`; it returns nothing or throws |
| RemoveFile.MissingReturns | src/commands/file/remove-file/removeFile.ts:6 | a missing path returns with no change |
| RemoveFile.RemovesFile | src/commands/file/remove-file/removeFile.ts:7 | an existing file is removed |
| RemoveFile.DirectoryThrows | src/commands/file/remove-file/removeFile.ts:7-10 | a directory is refused and rethrown as "Cannot remove file <path>. Error: …" |
| ReadJsonFile.MissingFileUriReadJson | src/commands/file/read-json-file/readJsonFile.ts:8-10 | a missing uri gives the default object, file not found, and a "No file uri." error naming the uri |
| ReadJsonFile.ParserFor | src/commands/file/read-json-file/readJsonFile.ts:83 | `vanilla_json` selects the strict parser, otherwise the relaxed one |
| ReadJsonFile.ProcessJson | src/commands/file/read-json-file/readJsonFile.ts:80-101 | the file counts as found iff text was read; there is no error iff that text parses, and then the object is the parsed value; on an error the object is the default |
| ReadJsonFile.ReadJsonFile | src/commands/file/read-json-file/readJsonFile.ts:68-77 | a missing or empty uri gives the missing-uri result; any error comes with the default object; no error means found with an object |
| ReadJsonFile.ReadFailureSwallowed | src/commands/file/read-json-file/readJsonFile.ts:71-99 | a read that throws becomes file not found with "Bad file uri." |
| ReadJsonFile.VanillaSelectsStrict | src/commands/file/read-json-file/readJsonFile.ts:83 | with `vanilla_json` the answer is what the strict parser gives, whatever the relaxed one would do |
| ReadJsonFile.UnparsableText | src/commands/file/read-json-file/readJsonFile.ts:86-92 | text that fails to parse gives found, the default object and "Could not parse JSON because: <message>. JSON: <text>" |
| ReadJsonFile.ParsedText | src/commands/file/read-json-file/readJsonFile.ts:84-85 | text that parses gives the parsed object, found, and no error |
| ReadJsonFile.EmptyFile | src/commands/file/read-json-file/readJsonFile.ts:81-92 | an empty file is found, with an error and the default object |
| FileHelpersReadJson.MissingFileUriReadJson | src/file-helpers/readJsonFromFile.ts:8-10 | a missing uri gives the default object, file not found, and a "No file uri." error |
| FileHelpersReadJson.ProcessJson | src/file-helpers/readJsonFromFile.ts:36-55 | found iff text was read; no error iff it parses, with the parsed object; on an error the object is the default |
| FileHelpersReadJson.ReadJsonFromFileSync | src/file-helpers/readJsonFromFile.ts:16-23 | a missing uri gives the missing-uri result; a read that throws propagates; otherwise the read text is processed |
| FileHelpersReadJson.ReadJsonFromFile | src/file-helpers/readJsonFromFile.ts:27-34 | a missing uri gives the missing-uri result |
| FileHelpersReadJson.MissingUriReadsNothing | src/file-helpers/readJsonFromFile.ts:8-29 | with a missing uri the reader is never consulted; the result has the default object, not found, and an error |
| FileHelpersReadJson.ParsedText | src/file-helpers/readJsonFromFile.ts:37-40 | text that parses gives the parsed object, found, and no error |
| FileHelpersReadJson.UnparsableText | src/file-helpers/readJsonFromFile.ts:41-47 | text that fails to parse gives found, the default object and "Could not parse JSON: <text>" |
| FileHelpersReadJson.UndefinedRead | src/file-helpers/readJsonFromFile.ts:48-54 | a read that yields nothing gives not found, the default object and "Bad file uri." |
| FileHelpersReadJson.SyncAsyncAgree | src/file-helpers/readJsonFromFile.ts:16-34 | the sync and async readers give the same result for the same read |
| FileHelpersReadJson.DefaultMeansObject | src/file-helpers/readJsonFromFile.ts:14-16 | with a default object given, the result always has an object |
| DirectoryHelpersReadJson.MissingFileUriReadJson | src/directory-helpers/readJsonFromFile.ts:8-10 | a missing uri gives the default object, file not found, and a "No file uri." error |
| DirectoryHelpersReadJson.ProcessJson | src/directory-helpers/readJsonFromFile.ts:31-50 | found iff text was read; no error iff it parses, with the parsed object; on an error the object is the default |
| DirectoryHelpersReadJson.ReadJsonFromFileSync | src/directory-helpers/readJsonFromFile.ts:13-20 | a missing uri gives the missing-uri result; a read that throws propagates; otherwise the read text is processed |
| DirectoryHelpersReadJson.ReadJsonFromFile | src/directory-helpers/readJsonFromFile.ts:22-29 | a missing uri gives the missing-uri result |
| DirectoryHelpersReadJson.MissingUriGivesDefault | src/directory-helpers/readJsonFromFile.ts:8-15 | a missing uri gives the default object, not found, and an error |
| DirectoryHelpersReadJson.ParsedText | src/directory-helpers/readJsonFromFile.ts:32-35 | text that parses gives the parsed object, found, and no error |
| DirectoryHelpersReadJson.UnparsableText | src/directory-helpers/readJsonFromFile.ts:36-42 | text that fails to parse gives found, the default object and an error |
| DirectoryHelpersReadJson.UndefinedRead | src/directory-helpers/readJsonFromFile.ts:43-49 | a read that yields nothing gives not found, the default object and "Bad file uri." |
| DirectoryHelpersReadJson.SameAsFileHelpers | src/directory-helpers/readJsonFromFile.ts:13-29 | this copy gives the same results as the file-helpers copy, sync and async |
| BackupCommon.Padded | src/commands/file/backup-file/backupFileSync.ts:60-65 | `toString().padStart(w, '0')` gives only digits and at least `w` of them |
| BackupCommon.FormattedDate | src/commands/file/backup-file/backupFileSync.ts:56-68 | the stamp has at least 14 characters and no '/', so it can sit inside a file name |
| BackupCommon.PaddedValue | src/commands/file/backup-file/backupFileSync.ts:60-65 | a field below its width's limit is padded to exactly that width, and its digits read back as the field |
| BackupCommon.FormattedDateFields | src/commands/file/backup-file/backupFileSync.ts:56-68 | for a valid moment the stamp is the year followed by thirteen digits that read back, two at a time, as month + 1, day, hours, minutes and seconds, and as milliseconds in the last three |
| BackupCommon.FirstFree | src/commands/file/backup-file/backupFileSync.ts:43-51 | the pass a naming loop settles on: every earlier candidate was taken, and this one is free or the last |
| BackupCommon.FirstFreeUnique | src/commands/file/backup-file/backupFileSync.ts:43-51 | that pass is the only one with this property |
| BackupCommon.FreeWhenAnyFree | src/commands/file/backup-file/backupFileSync.ts:43-51 | if any candidate is free, the one settled on is free |
| BackupFileSync.Candidate | src/commands/file/backup-file/backupFileSync.ts:45-46 | pass `c` tries `<name>_<stamp>-<c>.bak` in the source's directory; both uri and file are defined |
| BackupFileSync.Taken | src/commands/file/backup-file/backupFileSync.ts:43-51 | the loop looks at ten candidates |
| BackupFileSync.GetBackupFileDefault | src/commands/file/backup-file/backupFileSync.ts:39-54 | the loop over passes 0 to 9 answers the first candidate that does not exist, or the pass-9 candidate when all exist |
| BackupFileSync.BackupEffect | src/commands/file/backup-file/backupFileSync.ts:17-35 | the filesystem stays well formed; the answer is undefined exactly when the source is missing; a uri is answered only for a file source |
| BackupFileSync.BackupFileSync | src/commands/file/backup-file/backupFileSync.ts:17-35 | the answer and the new entries are those of `BackupEffect`, and the filesystem stays well formed |
| BackupFileSync.MissingSource | src/commands/file/backup-file/backupFileSync.ts:18 | a missing source answers undefined and creates nothing |
| BackupFileSync.DirectoryThrows | src/commands/file/backup-file/backupFileSync.ts:21-22 | a directory throws "Only supports files" and changes nothing |
| BackupFileSync.BadNameThrows | src/commands/file/backup-file/backupFileSync.ts:24-29 | a namer uri that is absent, empty or already exists throws "Bad backup uri…" and changes nothing |
| BackupFileSync.AllTakenThrows | src/commands/file/backup-file/backupFileSync.ts:27-54 | when all ten default names exist, the call throws "Bad backup uri…" |
| BackupFileSync.CandidateIsProper | src/commands/file/backup-file/backupFileSync.ts:45 | a candidate name is a single path segment |
| BackupFileSync.BackupIsCopy | src/commands/file/backup-file/backupFileSync.ts:31-33 | with a free default name, the answer is that uri and the filesystem is what copying the source there gives |
| BackupFileSync.DefaultBackupBeside | src/commands/file/backup-file/backupFileSync.ts:17-54 | when some candidate is free, the backup is the first free one, in the source's directory, with the source's content, at a path other than the source; nothing else changes |
| FileHelpersBackup.SplitExtension | src/file-helpers/backupFileSync.ts:36-39 | the extension holds no '.'; an empty extension leaves the whole name (which is then empty or ends with '.'); otherwise name + '.' + extension is the file, or a name without a dot is all extension |
| FileHelpersBackup.FileDetailsOf | src/file-helpers/backupFileSync.ts:32-42 | the directory is the stripped dirname, the file is what follows it, and the name and extension come from splitting the file at its last '.' |
| FileHelpersBackup.DetailsOfRendered | src/file-helpers/backupFileSync.ts:32-34 | for a normal path the file is its last name, and directory + '/' + file is the path |
| FileHelpersBackup.DotlessName | src/file-helpers/backupFileSync.ts:36-39 | a name without a dot becomes the extension, with an empty file name |
| FileHelpersBackup.DottedName | src/file-helpers/backupFileSync.ts:36-39 | 'name.ext' splits into 'name' and 'ext' |
| FileHelpersBackup.TakenAt | src/file-helpers/backupFileSync.ts:48-54 | pass `c`, from 1 to 10, is taken iff its candidate is an existing file |
| FileHelpersBackup.GetBackupFileDefault | src/file-helpers/backupFileSync.ts:44-60 | the loop over passes 1 to 10 answers the first candidate that is not an existing file, or the pass-10 one; it never throws, since a candidate is always computed |
| FileHelpersBackup.BackupEffect | src/file-helpers/backupFileSync.ts:13-27 | the filesystem stays well formed; the answer is undefined exactly when the source is not an existing file; a throw, or undefined, changes nothing; an answered uri names an existing file afterwards |
| FileHelpersBackup.BackupFileSync | src/file-helpers/backupFileSync.ts:13-27 | the answer and the new entries are those of `BackupEffect`, and the filesystem stays well formed |
| FileHelpersBackup.DefaultIsNotSource | src/file-helpers/backupFileSync.ts:44-55 | the default name never equals the source's uri |
| FileHelpersBackup.DefaultNameBeside | src/file-helpers/backupFileSync.ts:44-55 | the first free candidate is the default name, a new sibling of the source |
| FileHelpersBackup.DefaultBackupBeside | src/file-helpers/backupFileSync.ts:13-55 | the backup is that sibling, with the source's content, and nothing else changes |
| FileHelpersBackup.BackupToFree | src/file-helpers/backupFileSync.ts:22-25 | a default name that is free and has a directory parent receives a copy of the source |
| FileHelpersBackup.DefaultIsCandidate | src/file-helpers/backupFileSync.ts:48-55 | when the passes before `j + 1` are taken and pass `j + 1` is free, that candidate is the default name |
| FileHelpersBackup.CandidateBeside | src/file-helpers/backupFileSync.ts:49-51 | every candidate's uri is a sibling of the source |
| FileHelpersBackup.BackupIsCopy | src/file-helpers/backupFileSync.ts:22-25 | the answer is the default uri, and the filesystem is what `copy_file` to it gives |
| FileHelpersBackup.AllTakenOverwrites | src/file-helpers/backupFileSync.ts:24-60 | when all ten candidates exist, the pass-10 name is used and its file is overwritten with the source |
| FileHelpersBackup.CandidateIsProper | src/file-helpers/backupFileSync.ts:50 | a candidate is a single path segment |
| FileIoSyncNode.ListFiles | src/fileIoSyncNode.ts:43-54 | the listing keeps only file entries whose name passes the pattern, if one is given, and keeps every such entry |
| FileIoSyncNode.ListFilesSync | src/fileIoSyncNode.ts:39-58 | it throws exactly when the directory read throws, as "Cannot list files <dir>. Error: …"; otherwise it answers the filtered listing |
| FileIoSyncNode.ListedUri | src/fileIoSyncNode.ts:47-53 | each listed uri is the stripped parent path + '/' + the file name, both taken from a file entry |
| FileIoSyncNode.OnlyMatchingFiles | src/fileIoSyncNode.ts:44-46 | every listed name comes from a file entry that passes the pattern |
| FileIoSyncNode.AllFilesListed | src/fileIoSyncNode.ts:43-54 | without a pattern, a listing of files is kept whole and in order |
| FileIoSyncNode.WriteEffect | src/fileIoSyncNode.ts:19-31 | the filesystem stays well formed; a throw changes nothing; a return leaves a file at the path and changes nothing else |
| FileIoSyncNode.Write | src/fileIoSyncNode.ts:19-31 | the outcome and the new entries are those of `WriteEffect`, and the filesystem stays well formed |
| FileIoSyncNode.AppendToExisting | src/fileIoSyncNode.ts:21-24 | appending to an existing file adds the separator, then the content |
| FileIoSyncNode.AppendCreates | src/fileIoSyncNode.ts:21-24 | appending to a missing file creates it with the bare content |
| FileIoSyncNode.Replaces | src/fileIoSyncNode.ts:25-27 | without append the content is replaced unconditionally |
| FileIoSyncNode.RemoveDirectoryEffect | src/fileIoSyncNode.ts:66-84 | the filesystem stays well formed; a throw changes nothing; the call only removes entries |
| FileIoSyncNode.RemoveDirectory | src/fileIoSyncNode.ts:66-84 | the outcome and the new entries are those of `RemoveDirectoryEffect` |
| FileIoSyncNode.UnchangedUnlessEmptyOrForced | src/fileIoSyncNode.ts:68-74 | a path that is not a directory, or a non-empty directory without force, is left alone and the call returns |
| FileIoSyncNode.ForceRemovesSubtree | src/fileIoSyncNode.ts:76-77 | with force, the directory and everything below it go |
| FileIoSyncNode.EmptyRemovesItself | src/fileIoSyncNode.ts:78-80 | without force, an empty directory is the only entry removed |
| FileIoSyncNode.CopyEffect | src/fileIoSyncNode.ts:32-38 | the filesystem stays well formed; a throw changes nothing; a return needs a source file and leaves a file at the destination |
| FileIoSyncNode.CopyFile | src/fileIoSyncNode.ts:32-38 | the outcome and the new entries are those of `CopyEffect` |
| FileIoSyncNode.CopiesContent | src/fileIoSyncNode.ts:32-34 | the destination receives the source's content, overwriting an existing file |
| FileIoSyncNode.CopyMissingSource | src/fileIoSyncNode.ts:32-37 | a source that is not a file throws "Cannot copy file <source> to <destination>. Error: …" and changes nothing |
| FileIoSyncNode.RemoveFileEffect | src/fileIoSyncNode.ts:85-92 | the filesystem stays well formed; a throw changes nothing |
| FileIoSyncNode.RemoveFile | src/fileIoSyncNode.ts:85-92 | the outcome and the new entries are those of `RemoveFileEffect` |
| FileIoSyncNode.RemoveFileOutcome | src/fileIoSyncNode.ts:85-92 | the call always returns; an existing file is removed, and anything else leaves the filesystem unchanged |
| FileIoSyncNode.ChmodMode | src/fileIoSyncNode.ts:113 | '+x' becomes '755'; any other mode is passed on |
| FileIoSyncNode.ChmodFile | src/fileIoSyncNode.ts:111-118 | the call succeeds, with that mode, exactly when the path exists; otherwise it throws "Cannot chmod file <path>. Error: …" |
| FileIoSyncNode.ExecutableIs755 | src/fileIoSyncNode.ts:113-114 | '+x' on an existing path applies '755' |
| OldFileIoSyncNode.Read | src/old/fileIoSyncNode.ts:20-29 | an existing file answers its content; a path that does not exist (ENOENT) answers undefined; anything else, such as a directory, throws |
| OldFileIoSyncNode.MakeDirectoryIfNotExists | src/old/fileIoSyncNode.ts:11-17 | afterwards the path's directory exists; every earlier entry is kept and anything new is a directory |
| OldFileIoSyncNode.WriteEffect | src/old/fileIoSyncNode.ts:30-45 | the filesystem stays well formed; only the target can change, and only directories are added; a throw changes no entry; a return leaves a file at the path |
| OldFileIoSyncNode.Write | src/old/fileIoSyncNode.ts:30-45 | the outcome and the new entries are those of `WriteEffect`, and the filesystem stays well formed |
| OldFileIoSyncNode.WriteFresh | src/old/fileIoSyncNode.ts:37-41 | the non-append branch, with the same outcome and entries as `WriteEffect` |
| OldFileIoSyncNode.AppendToExisting | src/old/fileIoSyncNode.ts:34-36 | appending to an existing file adds the separator, then the content |
| OldFileIoSyncNode.OverwriteRefused | src/old/fileIoSyncNode.ts:38-44 | without append or overwrite, an existing file throws "Cannot write file <path>. Error: Cannot overwrite" and changes nothing |
| OldFileIoSyncNode.MakesDirectory | src/old/fileIoSyncNode.ts:37-41 | with `make_directory`, a new file is written below directories that are created; every earlier entry is kept |
| OldFileIoSyncNode.ReadWhatWasWritten | src/old/fileIoSyncNode.ts:20-41 | after a write that returns, reading the path gives the content written |
| OldFileIoSyncNode.CopyEffect | src/old/fileIoSyncNode.ts:46-57 | the filesystem stays well formed; only the destination can change, plus new directories; a return copies the source entry to the destination; without overwrite, a return means the destination was not a file |
| OldFileIoSyncNode.CopyFile | src/old/fileIoSyncNode.ts:46-57 | the outcome and the new entries are those of `CopyEffect` |
| OldFileIoSyncNode.CopyOverwriteRefused | src/old/fileIoSyncNode.ts:48-56 | without overwrite, an existing destination file throws "… Error: Cannot overwrite" and changes nothing |
| OldFileIoSyncNode.CopiesContent | src/old/fileIoSyncNode.ts:46-53 | a new destination in an existing directory receives the source's content |
| OldFileIoSyncNode.FileInfoOf | src/old/fileIoSyncNode.ts:130-146 | base name + extension with dot = file, and the directory is never '.' |
| OldFileIoSyncNode.AgreesWithPathInfo | src/old/fileIoSyncNode.ts:130-146 | `file_info` gives the same fields as `pathInfoSync` does for a file |
| OldFileIoSyncNode.FileInfoRoundTrip | src/old/fileIoSyncNode.ts:131-145 | for dir + '/' + name, the directory is dir, the file is name, the uri is the input, and the extension has no dot |
| OldFileIoSyncNode.Relative | src/old/fileIoSyncNode.ts:150-153 | './' is prepended unless `path.relative`'s answer starts with '../' |
| OldFileIoSyncNode.SameLocationIsDotSlash | src/old/fileIoSyncNode.ts:150-153 | for one location the old adapter answers './' where the newer `relative` answers '.' |
| OldFileIoSyncNode.AgreesWithNewer | src/old/fileIoSyncNode.ts:150-153 | for two different directories the old adapter and the newer `relative` agree |
| OldBackup.Taken | src/old/file-helpers/backupFileSync.ts:36-44 | the loop looks at ten candidates |
| OldBackup.TakenAt | src/old/file-helpers/backupFileSync.ts:38-42 | pass `c` is taken iff `<file>_<stamp>-<c>.bak` in the file's directory is an existing file |
| OldBackup.GetBackupFileDefault | src/old/file-helpers/backupFileSync.ts:32-49 | the loop over passes 0 to 9 answers the first candidate that is not an existing file, or the pass-9 one; it never throws, since a candidate is always computed |
| OldBackup.BackupEffect | src/old/file-helpers/backupFileSync.ts:14-28 | the filesystem stays well formed; the answer is undefined, with nothing changed, exactly when the source is not an existing file |
| OldBackup.BackupIsNewFile | src/old/file-helpers/backupFileSync.ts:23-26 | an answered uri was not a file before and is one afterwards |
| OldBackup.CopyBackup | src/old/file-helpers/backupFileSync.ts:25-26 | a copy that returns answers the uri, which is a new file |
| OldBackup.CopyMakesFile | src/old/file-helpers/backupFileSync.ts:25 | `copy_file` without overwrite returns only onto a path that was not a file, and leaves a file there |
| OldBackup.BackupFileSync | src/old/file-helpers/backupFileSync.ts:14-28 | the answer and the new entries are those of `BackupEffect`, and the filesystem stays well formed |
| OldBackup.MissingSource | src/old/file-helpers/backupFileSync.ts:15 | a path that is not an existing file answers undefined and changes nothing |
| OldBackup.ExistingNameThrows | src/old/file-helpers/backupFileSync.ts:23-25 | a chosen name that is already a file makes the copy throw "Cannot overwrite", and nothing changes |
| OldBackup.AllTakenThrows | src/old/file-helpers/backupFileSync.ts:25-49 | when all ten candidates exist, the pass-9 name is chosen and the copy throws "Cannot overwrite" |
| OldBackup.DefaultIsCandidate | src/old/file-helpers/backupFileSync.ts:36-44 | when the passes before `j` are taken and pass `j` is free, that candidate is the default name |
| OldBackup.CandidateIsProper | src/old/file-helpers/backupFileSync.ts:38 | a candidate is a single path segment |
| OldBackup.CandidateBeside | src/old/file-helpers/backupFileSync.ts:38-39 | every candidate is a sibling of the source, and never the source itself |
| OldBackup.DefaultNameBeside | src/old/file-helpers/backupFileSync.ts:32-49 | the first free candidate is the default name, a new sibling of the source |
| OldBackup.DefaultBackupBeside | src/old/file-helpers/backupFileSync.ts:14-49 | the backup is that sibling, with the source's content, and nothing else changes |
| OldBackup.BackupToFree | src/old/file-helpers/backupFileSync.ts:23-26 | a default name that is free and has a directory parent receives a copy of the source |
| PackageDirectory.Ancestors | src/directory-helpers/getPackageDirectory.ts:76-83 | the directories the walk scans begin with the start directory |
| PackageDirectory.UrisIn | src/directory-helpers/getPackageDirectory.ts:80 | one scan throws exactly when listing the directory throws; it yields the uri of every file entry named `package.json` (ignoring case) and nothing else |
| PackageDirectory.Concat | src/directory-helpers/getPackageDirectory.ts:79 | one scan after another throws when either throws, the first failure's message kept; otherwise the uris are joined in order |
| PackageDirectory.ConcatAssociative | src/directory-helpers/getPackageDirectory.ts:79 | joining scans does not depend on how they are grouped |
| PackageDirectory.CollectSources | src/directory-helpers/getPackageDirectory.ts:77-83 | the walk throws exactly when some scanned directory's listing throws; every uri found comes from a scanned directory |
| PackageDirectory.CollectFront | src/directory-helpers/getPackageDirectory.ts:80 | the walk over a directory and those after it is that directory's scan followed by the walk over the rest |
| PackageDirectory.CollectSnoc | src/directory-helpers/getPackageDirectory.ts:80 | each scan appends its uris after those already found |
| PackageDirectory.CollectSnocThrows | src/directory-helpers/getPackageDirectory.ts:80 | a scan that throws ends the walk with its message |
| PackageDirectory.AncestorsStep | src/directory-helpers/getPackageDirectory.ts:80-82 | after a directory, the walk goes on to its dirname only if that has a parent |
| PackageDirectory.PackageOf | src/directory-helpers/getPackageDirectory.ts:85-90 | a package's directory is the dirname of its uri; on an error the object is `{}`; there is no error iff the file was read and its text parses to the object |
| PackageDirectory.Packages | src/directory-helpers/getPackageDirectory.ts:85-90 | the packages are the uris decoded one by one, in the same order |
| PackageDirectory.ListPackagesUpwardsSync | src/directory-helpers/getPackageDirectory.ts:76-91 | the answer is the walk's uris, each decoded into a package |
| PackageDirectory.ListPackageUrisUpwards | src/directory-helpers/getPackageDirectory.ts:77-83 | the `while (true)` loop, which ends because each dirname is shorter, collects exactly the uris of the start directory and each successive parent that has a parent, in that order |
| PackageDirectory.TargetDefaults | src/directory-helpers/getPackageDirectory.ts:118-122 | a missing target becomes 'caller'; 'root' without a strategy gets 'caller-or-caller-consumer'; every other target is kept |
| PackageDirectory.TargetDefaultsIdempotent | src/directory-helpers/getPackageDirectory.ts:118-122 | applying the defaults twice changes nothing more |
| PackageDirectory.FirstDirectory | src/directory-helpers/getPackageDirectory.ts:128-163 | `packages[0]?.package_directory` is undefined exactly for an empty list |
| PackageDirectory.LastDirectory | src/directory-helpers/getPackageDirectory.ts:160 | `packages[packages.length-1]?.package_directory` is undefined exactly for an empty list |
| PackageDirectory.PartsInPackageName | src/directory-helpers/getPackageDirectory.ts:143-144 | a null package object throws, as reading `name` of null does; otherwise there is at least one part |
| PackageDirectory.ChooseDirectory | src/directory-helpers/getPackageDirectory.ts:125-165 | a chosen directory is some package's directory; with no packages none is chosen |
| PackageDirectory.PickPackageDirectory | src/directory-helpers/getPackageDirectory.ts:123-172 | an answer is a non-empty directory of some package; no packages throws "Could not pick package directory" |
| PackageDirectory.NearestPackage | src/directory-helpers/getPackageDirectory.ts:126-163 | 'caller', 'fileio' and 'closest-directory' answer the nearest package's directory |
| PackageDirectory.OutermostPackage | src/directory-helpers/getPackageDirectory.ts:158-161 | 'root' with any other strategy answers the outermost package's directory |
| PackageDirectory.SinglePackageIsRoot | src/directory-helpers/getPackageDirectory.ts:139-141 | 'root' with the default strategy and one package answers that package's directory |
| PackageDirectory.RootHeuristic | src/directory-helpers/getPackageDirectory.ts:143-156 | with two or more packages, the answer is the second package's directory iff it lies within name parts + 1 segments of the first; otherwise the call throws "Cannot trust…" and never falls back to the first |
| PackageDirectory.ConsumerOfDependency | src/directory-helpers/getPackageDirectory.ts:136-151 | a package installed at `<consumer>/node_modules/<its name>` resolves 'root' to the consumer's directory |
| PackageDirectory.CommonPrefixOfExtension | src/directory-helpers/getPackageDirectory.ts:145 | a path below another shares all of the upper one's names |
| PackageDirectory.PackageDirectoryOf | src/directory-helpers/getPackageDirectory.ts:30-38 | an answer is never the empty directory |
| PackageDirectory.GetPackageDirectorySync | src/directory-helpers/getPackageDirectory.ts:30-74 | defaults the target, picks the start directory, walks and picks, answering `PackageDirectoryOf` |
| PackageDirectory.WalkOrder | src/directory-helpers/getPackageDirectory.ts:76-83 | the walk scans the start directory, then each dirname in turn while it has a parent, and stops where the next dirname has none |
| PackageDirectory.RootNeverClimbedTo | src/directory-helpers/getPackageDirectory.ts:81-82 | no directory after the start is '/' or two characters or fewer, so the walk never climbs to the root |
| PackageDirectory.StartListedFirst | src/directory-helpers/getPackageDirectory.ts:77-80 | the start directory's uris open the list |
| PackageDirectory.PackageJsonNameIsProper | src/directory-helpers/getPackageDirectory.ts:80 | a name matching `package.json` without regard to case has twelve characters and no '/' |
| PackageDirectory.FoundInDirectory | src/directory-helpers/getPackageDirectory.ts:80-88 | a `package.json` listed in a directory decodes to that directory |
| PackageDirectory.FirstUriInStart | src/directory-helpers/getPackageDirectory.ts:77-83 | when the start directory holds a `package.json`, the first uri found lies in it |
| PackageDirectory.ClosestDirectoryFindsItself | src/directory-helpers/getPackageDirectory.ts:30-131 | 'closest-directory' on a directory that holds a `package.json` answers that directory |
| UserInput.FindChoice | src/user-input/BaseUserInput.ts:25 | the first entry that is a choice with the given name, or none when no entry is |
| UserInput.Ask | src/user-input/BaseUserInput.ts:16-43 | any answer other than abort carries the name of a question of the chain |
| UserInput.AskList | src/user-input/BaseUserInput.ts:18-31 | the list branch, with the same promise about names |
| UserInput.EmptyChoiceAborts | src/user-input/BaseUserInput.ts:18-23 | a list question answered with nothing or '' aborts |
| UserInput.ChoiceLeadsOn | src/user-input/BaseUserInput.ts:28-29 | a chosen choice with a next question answers exactly what that question answers |
| UserInput.ChoiceEnds | src/user-input/BaseUserInput.ts:30-31 | a chosen choice without one answers single, with the choice's name and the question's name |
| UserInput.FindFirst | src/user-input/BaseUserInput.ts:25 | of several choices with one name, the first is taken |
| UserInput.UnknownChoiceThrows | src/user-input/BaseUserInput.ts:25-26 | a text that names no choice throws "noop - typeguard" |
| UserInput.InputAnswers | src/user-input/BaseUserInput.ts:33-35 | an input question aborts only when nothing was entered; any text, '' included, is the single answer |
| UserInput.CheckboxAnswers | src/user-input/BaseUserInput.ts:37-39 | a checkbox question answers multi, with the ticked names |
| UserInput.OtherKindAborts | src/user-input/BaseUserInput.ts:41 | any other question type aborts without prompting |
| UserInput.TestUserInput.constructor | src/user-input/test-helper/TestUserInput.ts:19-21 | the map of answers is the one given, and no method can change it |
| UserInput.TestUserInput.Ask | src/user-input/test-helper/TestUserInput.ts:23-30 | a mapped name answers its answer; any other name that is not a member of `Object.prototype` throws "Undefined TestUserInput question name: <name>" |
| UserInput.TestUserInput.Close | src/user-input/test-helper/TestUserInput.ts:31-33 | always throws "Method not implemented." |

The old adapter's `remove_directory`, `remove_file` and `chmod_file` (src/old/fileIoSyncNode.ts:68-121) are the same code as the current adapter's (src/fileIoSyncNode.ts:66-118). They are modelled once, in `FileIoSyncNode`, and the rows above for that module state their behaviour for both.

## Left out

- Real I/O, the clock, the working directory and the interactive prompts. They are parameters: a directory listing, a file reader, a JSON parser (`JSON.parse`, `JSON5.parse`), `prompt`/`promptMulti`, a moment per loop pass, `Date.now()` per pass, and the working directory.
- Caller discovery by stack inspection (`getCallingScriptDirectory`, `getInvokedScriptDirectory`, `thisDir`). `PackageDirectory.GetPackageDirectorySync` takes the invoked and calling directories as parameters.
- The asynchronous twins (`getPackageDirectory`, `listPackagesUpwardsAsync`, `fileIoNode`). Only `readJsonFromFile` is modelled in its async form, as the value its promise settles to.
- The `glob`-based listing helpers, the `find-up`/`pkg-dir` wrappers, process execution (`execute`, `execute_file`), `make_directory` on its own, `has_directory`, and the interactive `UserInputNode`. These are wrappers around libraries or child processes.
- The verbose logging through `dLog` and the `console.log` of `remove_directory`. They print only.
- src/directory-helpers/stripTrailingSlash.ts, src/old/directory-helpers/stripTrailingSlash.ts and src/commands/file/strip-trailing-slash/stripTrailingSlash.ts are not part of this model. They are imported by src/fileIoSyncNode.ts:4, src/file-helpers/backupFileSync.ts:1, src/old/fileIoSyncNode.ts:4 and src/commands/file/path-info/pathInfoSync.ts:3. Each is taken to remove one trailing '/', as `stripTrailingSep` does, so `StripTrailingSep` stands in for them in `PathInfo.FileDirname`, `PathInfo.PathInfoSync`, `OldFileIoSyncNode.FileInfoOf`, `FileIoSyncNode.ListedUri`, `FileHelpersBackup.FileDetailsOf` and `PackageDirectory.UrisIn`, and in the members built on them.
- `isFileErrorNotExists` and `getErrorMessage` are not part of this model. A missing file is taken to be the ENOENT case, and a Node error's message is modelled by its code alone ("ENOENT", "ENOTDIR", "EISDIR", "EEXIST", "ENOTEMPTY", "EBUSY").
- RemoveDirectory.NotEmptyRefused: the error's `cause` (`{reason: 'directory_not_empty'}`) is not modelled, only its message.
- FileSystem.KeyOf: a path names an entry by lexical resolution, as `path.resolve` computes it, not by walking the real entries. A trailing '/' is dropped, so "f.txt/" names the file f.txt where Node's fs fails with ENOTDIR; and '..' is collapsed before any lookup, so "missing/../x" names x where Node fails with ENOENT. Every filesystem operation inherits this. For example, `CopyFileSync.CopyEffect` with destination "/a/", where /a is a file, copies onto /a (or refuses it as existing), where the source fails with ENOTDIR when copying to "/a/<name>". `PathInfo.PathInfoSync`, `WriteSync.WriteEffect` and both adapters' `has_file` likewise answer for "f.txt/" as for "f.txt".
- Symbolic links, permissions, modes and `rmSync` retries. The filesystem has only files and directories, so `chmod` cannot fail on an existing path, and a removal cannot leave the file behind (the second check of `removeFileSync` never fails).
- The filesystem root cannot be removed: removing '/' keeps the root directory entry.
- The empty path names nothing; it answers as a missing path would.
- JSON numbers are integers; floating point is not modelled.
- PackageDirectory.TargetDefaults: it returns a new target rather than setting `strategy` on the caller's object.
- PackageDirectory.PartsInPackageName: the TypeError for a null package object carries V8's message, modelled as a constant.
- Strings are sequences of characters: there is no Unicode normalisation, and case-insensitive matching of `package.json` folds ASCII letters only.
- UserInput.TestUserInput.Ask: names inherited from `Object.prototype` (`constructor`, `toString`, `hasOwnProperty`, `__proto__` and the rest) are not modelled. The source looks the name up on a plain object and answers any truthy value, so such a name answers the inherited member instead of throwing; the map here holds only the answers given.
- UserInput.Ask: the `confirmation` answer in `TestUserInput`'s doc comment is not an `Answer` the types allow, so it is not modelled; `BaseUserInput.close` does nothing and has no member.
- The standalone read of `fileIoSyncNode.read` (src/fileIoSyncNode.ts:11-18) is not modelled apart from its use by the readers, which take the reader as a parameter.
