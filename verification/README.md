# S3UpDownLoader: key and path construction, credential fallback and dispatch

S3UpDownLoader is a command-line tool that uploads files and folders to an
S3-compatible object store and downloads them back. Its own logic is small.
It builds object keys and local target paths from the two path arguments. It
walks a local folder or filters a bucket listing. It fills in omitted
credentials. It dispatches on the `--updown`/`--filefolder` pair. All real
transfer work is delegated to the storage client.

This Dafny project models that logic. Paths and keys are strings. Every
operation is a pure function from its inputs to a trace of `Action`s:
`Upload(localPath, key)`, `Download(key, localPath)` and `MakeDirs(path)`. The
local folder walk (a sequence of paths), the bucket listing (a sequence of
`(key, size)` objects), the set of existing local files and the set of existing
local paths are all inputs.

- `outcomes.dfy` (module `Outcomes`): `Option` for Python's `None`, and `Result`
  for an operation that raises `NotFound`.
- `paths.dfy` (module `Paths`): `remove_last_seperator`, POSIX `basename` and
  `dirname`, the `prefix/leaf` key join and Python's `str.replace`.
- `transfer.dfy` (module `Transfer`): the loader's transfer policy
  (MiB → bytes) and the operations `upload_file`, `upload_folder` (as written
  and corrected), `download_file` and `download_folder`.
- `cli.dfy` (module `Cli`): `set_credentials`, the dispatch table and the whole
  `__main__` block, as `Run`.

Where the tool's stated design and its code differ, the model follows the code:

- Stripping is not idempotent. `"a//"` becomes `"a/"`, not `"a"`.
  `Paths.RemoveLastSeparatorIdempotentIff` gives the exact condition.
- `download_file` creates no directory. Only `download_folder` does.
- `download_folder` skips the download of an empty object but still creates its
  parent directory.
- An unrecognised `--updown` or `--filefolder` prints a line and the run ends
  normally, with no error.
- `--multipart_threshold` and `--max_concurrency` are parsed but never passed
  to the loader. The loader always uses 50 MiB and 50.
- `upload_folder` runs as written, prefix drift and repeated-root deletion
  included (see "Findings"). The corrected definition, `Transfer.UploadFolder`,
  is modelled beside it; `Cli.RunUploadFolderCorrectedWhen` gives the inputs on
  which the two coincide.

## Model

| member | source | states |
|---|---|---|
| Paths.RemoveLastSeparator | S3UpDownLoader.py:70-78 | the result is a prefix of the input; it is exactly one character shorter iff the input ends in `/` or `\`, and equal to the input otherwise (so `""` stays `""`) |
| Paths.RemoveLastSeparatorIdempotentIff | S3UpDownLoader.py:76-77 | a second strip changes nothing iff the input does not end in two separators; only one separator is removed per call |
| Paths.StripNRemovesTrailing | S3UpDownLoader.py:167 | `n` successive strips remove `min(n, k)` characters, where `k` is the number of trailing separators |
| Paths.StripNSettles | S3UpDownLoader.py:167 | with at most one trailing separator, stripping any number of times gives the same as stripping once, so every file sees the same prefix |
| Paths.Basename | S3UpDownLoader.py:129 | `os.path.basename`: the result has no `/`, is a suffix of the path, and is preceded by `/` whenever it is not the whole path |
| Paths.Dirname | S3UpDownLoader.py:100-101 | `os.path.dirname`: `""` for a path without `/`; the head up to and including the last `/` when that head is all slashes; otherwise the head with its trailing slashes removed, which ends in a character other than `/` |
| Paths.DirnameBasenameOfJoin | S3UpDownLoader.py:98-101 | `dirname(d + "/" + b)` is `d` and `basename(d + "/" + b)` is `b` when `d` is non-empty and does not end in `/`, and `b` has no `/` |
| Paths.BasenameAfterSlash | S3UpDownLoader.py:129-130 | the basename of `d + "/" + leaf` is `leaf` when `leaf` has no `/` |
| Paths.Join | S3UpDownLoader.py:201-204 | the joined key is the leaf alone under an empty prefix; otherwise it is the prefix, then `/`, then the leaf (length prefix + 1 + leaf) |
| Paths.BasenameOfJoin | S3UpDownLoader.py:198-204 | the last component of a joined key is the leaf |
| Paths.ReplaceAllAbsent | S3UpDownLoader.py:161 | `str.replace` with a non-empty pattern that does not occur leaves the string unchanged |
| Paths.ReplaceAllLeadingOnly | S3UpDownLoader.py:161 | deleting a pattern that occurs only at the front removes just that leading copy |
| Paths.ReplaceAll | S3UpDownLoader.py:159-161 | Python's `str.replace`: a replacement no longer than a non-empty pattern never lengthens the string, and one of equal length keeps the length |
| Transfer.MakeTransferConfig | S3UpDownLoader.py:56-60 | the byte threshold is a whole number of MiB (1048576 bytes) whose MiB count is the argument; the concurrency is kept |
| Transfer.NewLoader | S3UpDownLoader.py:28-60 | the constructor keeps the credentials and verbosity as given and converts the threshold from MiB to bytes |
| Transfer.UploadKey | S3UpDownLoader.py:198-204 | the key is the bare basename iff the stripped prefix is empty; otherwise it is the stripped prefix, then `/`, then the file's basename (its length and the `/` are fixed, and it starts with the prefix and ends with the basename) |
| Transfer.UploadFile | S3UpDownLoader.py:196-204 | it raises `NotFound` iff the local file is missing; otherwise it issues exactly one upload of that file, under exactly the key of `Transfer.UploadKey` |
| Transfer.DownloadFile | S3UpDownLoader.py:128-130 | it raises `NotFound` iff the key is not in the bucket; otherwise it issues exactly one download of that key, to a path inside `dest` named by the key's basename |
| Transfer.UploadThenDownloadFile | S3UpDownLoader.py:129-130 | a file uploaded below any prefix and then downloaded by its key into a directory lands in that directory under its own basename |
| Transfer.Under | S3UpDownLoader.py:96 | the filtered listing holds exactly the listed objects whose key starts with the prefix |
| Transfer.UnderCons | S3UpDownLoader.py:96 | filtering a listing that starts with an object keeps or drops that object first, then filters the rest: listing order is kept |
| Transfer.UnderSingleton | S3UpDownLoader.py:96 | a one-object listing is kept iff its key starts with the prefix |
| Transfer.UnderAppend | S3UpDownLoader.py:96 | filtering distributes over concatenation, so the filtered objects come in listing order |
| Transfer.DirsMadeBy | S3UpDownLoader.py:101 | after `os.makedirs(d)`, `d` exists, every ancestor of `d` ending before a `/` exists, and nothing else but prefixes of `d` is created |
| Transfer.DownloadObject | S3UpDownLoader.py:97-113 | one iteration issues only the parent's `MakeDirs`, iff the parent is missing, and the object's `Download`, iff it is non-empty, with the `MakeDirs` first when both occur and nothing else issued, so at most once each; the parent exists afterwards, and only what the actions create is added |
| Transfer.DownloadObjectDownloads | S3UpDownLoader.py:103-105 | one iteration's only download is of the object to `dest/key`, and only when the object is non-empty |
| Transfer.DownloadFolder | S3UpDownLoader.py:95-113 | the downloads are exactly the reference ones for the filtered listing, in order; the paths existing afterwards are those that existed before plus those the issued actions create |
| Transfer.NonEmptyDownloadsMembers | S3UpDownLoader.py:103-105 | a download to `dest/key` is in the reference set iff some object with that key has size > 0 |
| Transfer.DownloadObjectsDownloads | S3UpDownLoader.py:96-113 | the downloads the loop issues are exactly one per non-empty object, in listing order, each to `dest + "/" + key` |
| Transfer.DownloadObjectsGrows | S3UpDownLoader.py:100-101 | local paths never disappear during the loop |
| Transfer.DownloadObjectsPresent | S3UpDownLoader.py:100-113 | a local path exists after the loop iff it existed before or one of the issued `MakeDirs`/`Download` actions creates it |
| Transfer.DownloadObjectsKinds | S3UpDownLoader.py:96-113 | the loop issues nothing but directory creations and downloads |
| Transfer.DownloadObjectParentReady | S3UpDownLoader.py:100-105 | within one iteration, a download's parent directory existed already or was created by the `MakeDirs` before it |
| Transfer.DownloadObjectsParentsReady | S3UpDownLoader.py:96-113 | over the whole loop, every download's parent directory existed before the run or was created by an earlier action of the trace |
| Transfer.DownloadObjectsDirsExist | S3UpDownLoader.py:100-105 | afterwards the parent directory of every processed object exists, zero-byte objects included |
| Transfer.DownloadObjectMakesOnlyAbsent | S3UpDownLoader.py:100-101 | one iteration creates its parent only when it is missing, and before anything else |
| Transfer.MakesOnlyAbsentAppend | S3UpDownLoader.py:97-101 | when a later iteration creates only paths missing after the earlier ones, no directory in the combined run is created twice |
| Transfer.DownloadObjectCreatesPresent | S3UpDownLoader.py:100-113 | whatever an iteration's actions create exists after that iteration |
| Transfer.DownloadObjectsMakesOnlyAbsent | S3UpDownLoader.py:97-101 | over the whole loop, each `os.makedirs` targets a path that is missing when line 100 checks it, so no directory is created twice |
| Transfer.DownloadObjectsMakesOnlyMissing | S3UpDownLoader.py:100-101 | a directory is created only if it is missing at that point of the loop (absent before the run and not created by an earlier action, so never twice), and only as the parent of some processed object |
| Transfer.DownloadFolderEffects | S3UpDownLoader.py:95-113 | `download_folder` downloads exactly the non-empty objects below the stripped prefix; it issues nothing but directory creations and downloads; every download comes after its parent exists; the parent of every object below the prefix exists afterwards, and either existed before or is created by an issued action; a directory is created only when it is missing at that point of the run, so none twice |
| Transfer.DownloadFolderDownloadsIff | S3UpDownLoader.py:103-105 | a listed object below the prefix is downloaded to `dest/key` iff its size is greater than zero |
| Transfer.Slashed | S3UpDownLoader.py:156 | the rewritten path has the same length and contains no `\` |
| Transfer.SlashedIsReplace | S3UpDownLoader.py:159 | the character-wise rewrite equals `str.replace("\\", "/")` on every string |
| Transfer.BaseKeyAsWritten | S3UpDownLoader.py:160-161 | the base key always starts with the root's last component and `/` |
| Transfer.RelativePath | S3UpDownLoader.py:161 | corrected base-key helper: a path below `root/` is `root/` followed by the result; any other path is returned whole |
| Transfer.BaseKeyAgrees | S3UpDownLoader.py:160-161 | when `root/` occurs only at the front of a walked path `root/rel`, line 161 yields `name/rel`, the same key as stripping the leading root |
| Transfer.ReplaceAllDeletesLeading | S3UpDownLoader.py:161 | a leading copy of the pattern is deleted and the scan continues after it |
| Transfer.ReplaceBothCopies | S3UpDownLoader.py:161 | `"/a/x/a/y".replace("/a/", "")` is `"xy"` |
| Transfer.ReplaceOneCopy | S3UpDownLoader.py:161 | `"/a/xy".replace("/a/", "")` is `"xy"` |
| Transfer.BaseKeyAsWrittenCollides | S3UpDownLoader.py:161 | under root `/a`, line 161 maps both `/a/x/a/y` and `/a/xy` to `a/xy` |
| Transfer.SlashedAll | S3UpDownLoader.py:155-159 | the walked paths are collected in walk order, each rewritten with forward slashes |
| Transfer.UploadFolder | S3UpDownLoader.py:163-181 | corrected `upload_folder`: one upload per walked file, in walk order, each of the file's own forward-slash path |
| Transfer.UploadEntryKey | S3UpDownLoader.py:160-171 | corrected `upload_folder`: a walked file `root/rel` gets the key `prefix/name/rel`, where `name` is the root's last component |
| Transfer.UploadFolderKey | S3UpDownLoader.py:160-171 | corrected `upload_folder`: the i-th file `root/rel` is stored at the once-stripped destination joined with `name/rel` |
| Transfer.UploadEntryPrefix | S3UpDownLoader.py:167-171 | every entry's key starts with the prefix joined with `name/` |
| Transfer.UploadFolderSharedPrefix | S3UpDownLoader.py:167-171 | corrected `upload_folder`: all keys share the prefix `stripped-dest/name/` |
| Transfer.UploadEntryKeysDistinct | S3UpDownLoader.py:161 | corrected `upload_folder`: two different files below the root get different keys |
| Transfer.UploadFolderKeysDistinct | S3UpDownLoader.py:161 | corrected `upload_folder`: two different walked files below the root are never stored under the same key |
| Transfer.UnderAll | S3UpDownLoader.py:96 | filtering a listing whose keys all start with the prefix keeps all of it, in order |
| Transfer.NonEmptyDownloadsAll | S3UpDownLoader.py:105 | with no empty object, every object is downloaded to `dest/key`, in order |
| Transfer.DownloadFolderAll | S3UpDownLoader.py:95-113 | downloading a prefix that covers a listing with no empty object fetches every key, in order, to `out/key` |
| Transfer.UploadThenDownloadFolder | S3UpDownLoader.py:95-113 | corrected `upload_folder`, listing in upload order: downloading `dest/name` into `out` fetches every uploaded key, in upload order, to `out/key` |
| Transfer.AsWrittenAgrees | S3UpDownLoader.py:160-171 | with at most one trailing separator on `dest`, and base keys that agree, the as-written uploads equal the corrected ones |
| Transfer.AsWrittenEntryAgrees | S3UpDownLoader.py:161-171 | one as-written upload equals the corrected one when `dest` ends in at most one separator and the base keys agree |
| Transfer.UploadFolderAsWritten | S3UpDownLoader.py:155-181 | the loop over the forward-slash walk yields exactly the as-written trace |
| Transfer.AsWrittenLoop | S3UpDownLoader.py:163-181 | with `dest_path` reassigned on every iteration, the loop's i-th upload is of the i-th file, under `dest` stripped i+1 times joined with line 161's base key, for every i |
| Transfer.UploadFolderAsWrittenTrace | S3UpDownLoader.py:155-181 | `upload_folder` as written: one upload per walked file, in walk order, of the file's forward-slash path, under `dest` stripped i+1 times joined with line 161's base key |
| Transfer.AsWrittenEntryKey | S3UpDownLoader.py:161-171 | as written, a file `root/rel` with no second `root/` in `rel` keys as the current prefix joined with `name/rel` |
| Transfer.UploadFolderAsWrittenKey | S3UpDownLoader.py:160-171 | as written, the i-th file `root/rel` (no second `root/` in `rel`) is stored at `dest` stripped i+1 times joined with `name/rel`, which is the once-stripped `dest` when `dest` ends in at most one separator |
| Transfer.JoinExtends | S3UpDownLoader.py:168-171 | extending the leaf extends the joined key |
| Transfer.UploadThenDownloadFolderAsWritten | S3UpDownLoader.py:95-113 | as written, with `dest` ending in at most one separator: in any listing where an uploaded key is a non-empty object of its own (any order, other keys allowed), downloading `dest/name` fetches that key to `out/key` |
| Transfer.PrefixDrifts | S3UpDownLoader.py:167 | with destination `p//`, the first file is stored below `p/` and the second below `p`, whereas a single strip would give `p/` for both |
| Cli.SetCredentials | run_updownloader.py:31-45 | each of bucket, access key and secret key is kept if given, else replaced by its built-in default; the endpoint is unchanged because its default is `None`; no other argument changes |
| Cli.SetCredentialsIdempotent | run_updownloader.py:31-45 | resolving credentials twice equals resolving them once |
| Cli.Dispatch | run_updownloader.py:61-76 | an operation is chosen iff the direction is `up`/`down` and the unit is `file`/`folder`; the direction decides upload vs download and the unit decides file vs folder; a bad direction is reported before a bad unit |
| Cli.Perform | run_updownloader.py:61-72 | only the two file operations can raise, `NotFound` of the source, each iff its source is missing; the folder operations always complete, `upload_folder` with one upload per walked file |
| Cli.Run | run_updownloader.py:49-76 | the loader always gets a 52428800-byte threshold, concurrency 50, the resolved credentials and `--verbose`, whatever the other keys say; there is either exactly one call, of the operation the table selects for the two keys, receiving the paths unchanged and yielding that operation's outcome, or exactly one usage line and no action |
| Cli.RunIgnoresTransferFlags | run_updownloader.py:53-59 | changing `--multipart_threshold` or `--max_concurrency` changes nothing in a run |
| Cli.RunDispatchTable | run_updownloader.py:61-72 | up+file runs `upload_file`, up+folder `upload_folder` as written, down+file `download_file` and down+folder `download_folder`, each on the given source and destination |
| Cli.RunUploadFolderCorrectedWhen | run_updownloader.py:61-65 | an up+folder run issues the corrected uploads when the destination ends in at most one separator and every walked path's base keys agree |
| Cli.RunRejectsUnknownKeys | run_updownloader.py:66-76 | an unrecognised key issues no call and no action, prints its usage line and ends without an error |

## Left out

- The storage client itself is not modelled: creating the resource, client and bucket, the multipart and concurrency machinery, retries, and `check_path_exists`, which is never called. The client's calls appear only as `Upload`/`Download` actions. `content_length` appears as the size in the listing.
- Progress bars, the byte callback, `print` and the 0.3-second pause are left out. `verbose` only selects between these display paths, so it does not change any trace.
- The runtime installation of missing packages at import time is left out. It is process plumbing.
- Argument parsing is left out, including `bool("False")` being true for `--verbose`. A run starts from parsed `Args`.
- `os.path.abspath` and `os.path.normpath` are treated as the identity. Inputs are taken to be absolute and normalised. So a key with `//`, `.`, `..` or a trailing `/` is not normalised in its local target. This matters most for a zero-byte directory-marker object such as `d/`: `abspath` drops the trailing `/`, so the program creates `dest`, whereas the model creates `dest/d`.
- `os.walk` order and contents come in as a given sequence of paths. Nothing checks that they lie below the source folder. The value of `os.path.getsize` inside the folder loop is used only for display, so it is dropped.
- Failures of `os.makedirs` and of the transfers themselves (network, permissions, disk) are not modelled. The model raises only the two `NotFound` cases: a missing local file in `upload_file` and a missing key in `download_file`.
- Paths.Basename and Paths.Dirname: POSIX semantics only. `\` is an ordinary character for them, as on POSIX.
- The exception `os.path.getsize` raises in the folder loop (S3UpDownLoader.py:164) is not modelled; it aborts the remaining uploads, whereas the model uploads every walked path. It fires, for example, for a walked broken symbolic link, for a file that disappears during the run, or, on POSIX, for a file named `a\b`: line 159 rewrites it to `root/a/b`, and when `root/a/b` also exists the program uploads that file twice instead of failing.
- Transfer.UploadEntryKey, Transfer.UploadFolderKey, Transfer.UploadThenDownloadFolder, Transfer.UploadFolderSharedPrefix, Transfer.UploadEntryKeysDistinct and Transfer.UploadFolderKeysDistinct: proved of the corrected `upload_folder` only. The code as written breaks the last three: a destination ending in `//` drifts the prefix, and a repeated `root/` makes keys collide (see "Findings"). For the code as written they hold where `Transfer.AsWrittenAgrees` applies; `Transfer.UploadFolderAsWrittenKey` and `Transfer.UploadThenDownloadFolderAsWritten` state the as-written versions.

## Findings

| source | as written | input that shows it | evidently intended | confidence | as-written member | corrected member |
|---|---|---|---|---|---|---|
| S3UpDownLoader.py:161 | `src_file_path.replace(src_path + "/", "")` deletes every copy of `root/` in a walked path, not only the leading one | root `/a`, walked files `/a/x/a/y` and `/a/xy`: both get base key `a/xy`, so the second upload overwrites the first | remove only the leading `root/`, so each file keys as `name/<path relative to root>` and distinct files get distinct keys | medium, not executed | Transfer.BaseKeyAsWrittenCollides | Transfer.UploadFolderKeysDistinct |
| S3UpDownLoader.py:167 | `dest_path = self.remove_last_seperator(dest_path)` inside the loop strips the prefix again for every file | destination `p//` and two files: the first is stored below `p/` (key `p//r/x`), the second below `p` (key `p/r/y`) | strip the prefix once, as `upload_file` does, so every file of a folder shares one prefix | medium, not executed | Transfer.PrefixDrifts | Transfer.UploadFolderSharedPrefix |
