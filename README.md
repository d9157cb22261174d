# buildcache: paths, staging, and the Redis and S3 cache providers

This project models three parts of buildcache, a compiler-invocation cache.

1. **`bcache::file` path and staging helpers** (POSIX variant, separator `/`), as
   `file_utils_test.cpp` pins them down:
   - `append_path`, `get_dir_part`, `get_file_part`, `get_extension` and `canonicalize_path`
     are pure functions (`FileUtils`);
   - the file system is a class (`Staging.FileSystem`): a map from paths to files and
     directories, plus the working directory and the id counter, with `get_unique_id` as its
     method `GetUniqueId`;
   - `tmp_file_t` (a temporary path that removes whatever was created at it when its scope
     ends) and `scoped_work_dir_t` (a working-directory change undone at the end of a scope)
     are classes over that file system (`Staging`).
2. **The Redis cache provider** (`RedisCache`):
   - key naming and the millisecond-to-`timeval` conversion, using C's truncating `/` and `%`;
   - the connection and AUTH policy;
   - how GET and SET replies are sorted into data, misses and errors;
   - `lookup`, `get_file` and `add`.

   The provider is a class holding the hiredis context (`ctx`, `None` for the null pointer) and
   the log of commands it has sent (`sent`). Every hiredis result arrives as a parameter
   (`Reply`, `LinkOutcome`, a boolean for `redisSetTimeout`).
3. **The S3 cache provider** (`S3Cache`): the credential check in `connect`, the text that is
   signed, and the request header built by `get_header`. The clock, HMAC-SHA1 and Base64 are
   parameters.

`Strings` (split and join on a character), `Decimal` (decimal rendering of integers) and
`Wrappers` (`Option`, `Result`, `Outcome`) are helpers the three parts share.

`tmp_file_t`'s path is `append_path(base, id + extension)`; the tests pass a directory as the
base (`file_utils_test.cpp:49`, `:81`). `TmpPathShape` proves that such a path starts with the base
and ends with the extension. `TmpPathExtensionOnlyAtEnd` adds that, for a base without '.', the
extension occurs nowhere earlier, so its first occurrence (what `find` returns) is at the end.

## Model

| member | source | states |
|---|---|---|
| FileUtils.AppendPath | src/base/file_utils_test.cpp:106-129 | an empty side yields the other side; otherwise the result is the first part, one separator and the second part, one character longer than the two |
| FileUtils.Step | src/base/file_utils_test.cpp:227-246 | one segment either leaves the stack alone, pushes the segment, or pops the top; "" and "." never change it, and a ".." is pushed only in a relative path |
| FileUtils.Fold | src/base/file_utils_test.cpp:227-246 | folding a run of segments grows the stack by at most one entry per segment |
| FileUtils.Render | src/base/file_utils_test.cpp:227-246 | an absolute rendering starts with the separator; a relative one does so exactly when its first segment does, or its first segment is empty with more to follow |
| FileUtils.CanonicalizePath | src/base/file_utils_test.cpp:227-246 | canonicalising keeps a path absolute or relative |
| FileUtils.AppendPathLength | src/base/file_utils_test.cpp:106-129 | joining two non-empty parts adds exactly one character; an empty side yields the other side unchanged |
| FileUtils.GetDirPart | src/base/file_utils_test.cpp:132-146 | the dir part is "" when the path has no separator, otherwise a proper prefix followed by a separator |
| FileUtils.GetFilePart | src/base/file_utils_test.cpp:156-170 | the file part is a separator-free suffix of the path, and the whole path when there is no separator |
| FileUtils.SplitAppendPath | src/base/file_utils_test.cpp:132-163 | for a separator-free, non-empty file name, get_dir_part and get_file_part of append_path(dir, file) give back dir and file |
| FileUtils.DirAndFileRebuildPath | src/base/file_utils_test.cpp:132-170 | dir part, separator and file part reassemble the path; with no separator, append_path of the two parts is the path |
| FileUtils.GetExtension | src/base/file_utils_test.cpp:172-186 | the extension is "" or a suffix of the path that starts with '.' and contains no further '.' and no separator; "" when the file part has no '.' |
| FileUtils.ExtensionOfSuffix | src/base/file_utils_test.cpp:172-186 | appending a final dotted suffix without dots or separators to any path makes that suffix the extension, so earlier dotted parts are ignored |
| FileUtils.PathPartExamples | src/base/file_utils_test.cpp:106-186 | the concrete append, dir-part, file-part and extension cases of the tests |
| FileUtils.CanonicalizeShape | src/base/file_utils_test.cpp:206-248 | canonicalising keeps absoluteness, and the result is a rendering of segments with no "", no ".", and ".." only as a leading run (never in an absolute path) |
| FileUtils.CanonicalizeRender | src/base/file_utils_test.cpp:227-246 | a rendered canonical segment list reads back as the same list and is already canonical |
| FileUtils.CanonicalizeIdempotent | src/base/file_utils_test.cpp:227-246 | canonicalising a canonical path changes nothing |
| FileUtils.CanonicalHasNoEmptySegment | src/base/file_utils_test.cpp:227-246 | a canonical path has no repeated separator and no trailing separator, except the root "/" itself |
| FileUtils.FilePartOfSuffix | src/base/file_utils_test.cpp:156-170 | appending a suffix without separators to a path extends its file part by exactly that suffix |
| FileUtils.FoldConcat | src/base/file_utils_test.cpp:227-246 | folding two runs of segments equals folding the second run onto the stack the first one left |
| FileUtils.CanonicalizeAppend | src/base/file_utils_test.cpp:227-246 | canonicalising a non-empty path extended by a separator and more text folds the new segments onto the path's own stack |
| FileUtils.CanonicalizeDropsTrailingDot | src/base/file_utils_test.cpp:228-236 | for every non-empty path p, p + "/." canonicalises like p |
| FileUtils.CanonicalizeDropsTrailingSeparator | src/base/file_utils_test.cpp:243-246 | for every non-empty path p, p + "/" canonicalises like p |
| FileUtils.CanonicalizeParentCancelsName | src/base/file_utils_test.cpp:233-241 | for every non-empty path p and plain name x, p + "/" + x + "/.." canonicalises like p |
| FileUtils.CanonicalizeDotSegments | src/base/file_utils_test.cpp:228-231 | for any two plain names a and b (non-empty, not "." or "..", no separator), "/a/././b/." canonicalises to "/a/b" |
| FileUtils.CanonicalizeParentSegment | src/base/file_utils_test.cpp:233-236 | for any two plain names a and b, "/a/./../b/." canonicalises to "/b" |
| FileUtils.CanonicalizeEmptySegments | src/base/file_utils_test.cpp:238-241 | for any two plain names a and b, "/a/.///../b/.." canonicalises to "/" |
| FileUtils.CanonicalizeTrailingSeparator | src/base/file_utils_test.cpp:243-246 | for any two plain names a and b, "/a/b/" canonicalises to "/a/b" |
| FileUtils.CanonicalizeExample1 | src/base/file_utils_test.cpp:228-231 | "/foo/././bar/." canonicalises to "/foo/bar" |
| FileUtils.CanonicalizeExample2 | src/base/file_utils_test.cpp:233-236 | "/foo/./../bar/." canonicalises to "/bar" |
| FileUtils.CanonicalizeExample3 | src/base/file_utils_test.cpp:238-241 | "/foo/.///../bar/.." canonicalises to "/" |
| FileUtils.CanonicalizeExample4 | src/base/file_utils_test.cpp:243-246 | "/foo/bar/" canonicalises to "/foo/bar" |
| Staging.UniqueId | src/base/file_utils_test.cpp:188-204 | an id has at least 16 characters and contains neither a separator nor a '.' |
| Staging.UniqueIdInjective | src/base/file_utils_test.cpp:188-204 | different requests receive different ids |
| Staging.FileSystem.GetUniqueId | src/base/file_utils_test.cpp:193-195 | issues the id of the current counter and advances the counter by one |
| Staging.FileSystem.UniqueIds | src/base/file_utils_test.cpp:188-204 | `count` ids issued in a row are pairwise distinct |
| Staging.TmpPath | src/base/file_utils_test.cpp:32-46 | the path of a temporary entry: append_path of the base and the id followed by the extension (its properties are the TmpPath lemmas below) |
| Staging.TmpPathExtensionOnlyAtEnd | src/base/file_utils_test.cpp:41 | for a base without '.' and an extension starting with '.', the extension occurs at the end and at no earlier index, so `find(ext)` is size minus the extension's size |
| Staging.TmpPathFullPathCase | src/base/file_utils_test.cpp:33-45 | for base "hello/world" and extension ".myext": the base occurs at 0, the first occurrence of the extension is at the end, and the path is more than six characters longer than both |
| Staging.TmpPathShape | src/base/file_utils_test.cpp:32-46 | a temporary path starts with the base path, ends with the extension, and is more than six characters longer than the two together |
| Staging.TmpPathInjective | src/base/file_utils_test.cpp:48-78 | temporary paths built from different ids differ, for the same base and extension |
| Staging.TmpPathParent | src/base/file_utils_test.cpp:48-103 | a temporary path lies directly inside its base directory |
| Staging.AbsentHasNoDescendants | src/base/file_utils_test.cpp:80-103 | in a file system where every entry sits in a directory, nothing lies below a path that does not exist |
| Staging.FileSystem.FileExists | src/base/file_utils_test.cpp:64-77 | a path that is a file is an entry and not a directory |
| Staging.FileSystem.DirExists | src/base/file_utils_test.cpp:96-101 | a path that is a directory is an entry |
| Staging.FileSystem.GetCwd | src/base/file_utils_test.cpp:252-262 | the current working directory (its changes are stated by SetCwd and ScopedWorkDir) |
| Staging.FileSystem.Write | src/base/file_utils_test.cpp:61-72 | a write succeeds exactly when the path is not a directory and its parent exists; it sets that one file and keeps the tree invariant |
| Staging.FileSystem.CreateDir | src/base/file_utils_test.cpp:92-96 | creating a directory succeeds exactly when the path is free and its parent exists; it adds that one directory and keeps the tree invariant |
| Staging.FileSystem.RemoveFile | src/base/file_utils_test.cpp:75-77 | removes the file at the path if there is one and nothing else |
| Staging.FileSystem.RemoveDirRecursive | src/base/file_utils_test.cpp:100-102 | removes the path and every entry below it, keeps every other entry, and keeps the tree invariant |
| Staging.FileSystem.SetCwd | src/base/file_utils_test.cpp:250-263 | the working directory becomes the requested one exactly when it is a directory; otherwise it is unchanged |
| Staging.TmpFile.constructor | src/base/file_utils_test.cpp:32-46 | the handle's path is built from a freshly issued id, is not taken, and has nothing below it; the file system is not touched |
| Staging.TmpFile.Close | src/base/file_utils_test.cpp:75-102 | at the end of the scope nothing remains at the path: a file is deleted, and a directory is deleted with everything below it; the tree invariant is kept |
| Staging.ScopedWorkDir.constructor | src/base/file_utils_test.cpp:271-281 | remembers the current working directory; `entered` records whether the requested one is a directory, and exactly then it becomes current, otherwise nothing changes |
| Staging.ScopedWorkDir.Close | src/base/file_utils_test.cpp:282-285 | at the end of the scope it changes back, through SetCwd, to the remembered working directory when that still exists; otherwise, as `set_cwd` refuses a non-directory, the working directory stays where it is |
| Staging.TwoTmpPaths | src/base/file_utils_test.cpp:48-58 | two temporary paths from different ids on one base and extension differ, both lie directly inside the base, and neither is the base itself |
| Staging.CreateTwoTmpFiles | src/base/file_utils_test.cpp:54-72 | two handles on one base get different paths whose directory part is the base, neither the base itself, and after both writes both files exist (the state between the writes is an assertion in the body) |
| Staging.CreateTmpDirWithFile | src/base/file_utils_test.cpp:86-97 | a directory can be created at a handle's path and a file written inside it; both then exist and the base directory lies outside the new tree |
| Staging.TwoTmpFilesScenario | src/base/file_utils_test.cpp:48-78 | two handles on one base get different paths whose directory part is the base, both files can be written, and after both scopes end neither file exists |
| Staging.TmpDirScenario | src/base/file_utils_test.cpp:80-103 | a directory created at a handle's path directly inside the base, with the file `hello.foo` directly inside it, is gone together with the file after the scope ends |
| Staging.SetCwdScenario | src/base/file_utils_test.cpp:250-269 | setting a new working directory and then the old one returns to the old one |
| Staging.ScopedWorkDirScenario | src/base/file_utils_test.cpp:271-286 | after a scoped change of working directory the old directory is current again |
| RedisCache.RemoteKeyName | src/cache/redis_cache_provider.cpp:54-56 | the key of one file of an entry; under one hash it determines the file id (RemoteKeyNameSameHash) |
| RedisCache.RemoteKeyNameSameHash | src/cache/redis_cache_provider.cpp:54-56 | under one hash, different file ids give different keys |
| RedisCache.RemoteKeyNameInjective | src/cache/redis_cache_provider.cpp:54-56 | for hashes without '_', a key "buildcache_<hash>_<file>" determines both its hash and its file |
| RedisCache.MsToTimeval | src/cache/redis_cache_provider.cpp:58-63 | seconds times 1000 plus the truncated milliseconds of the microseconds gives the input back; the microseconds stay below one second in magnitude and take the sign of the input |
| RedisCache.EffectivePort | src/cache/redis_cache_provider.cpp:82-86 | a negative port becomes 6379, any other port is kept |
| RedisCache.AuthPolicy | src/cache/redis_cache_provider.cpp:110-139 | no AUTH without password and user name; failure for a user name without a password; otherwise AUTH with the password, preceded by the user name and a space when one is set |
| RedisCache.AuthCredentialsSplit | src/cache/redis_cache_provider.cpp:113-117 | with a user name free of spaces, the AUTH argument splits at its first space into user name and password |
| Decimal.IntToString | src/cache/redis_cache_provider.cpp:230 | `std::to_string` of the reply type in the unexpected-type messages: the text starts with '-' exactly when the number is negative |
| RedisCache.GetOutcome | src/cache/redis_cache_provider.cpp:213-243 | a GET succeeds exactly on a string reply and yields its text; nil is a miss naming the key; an error reply carries the server's text |
| RedisCache.SetOutcome | src/cache/redis_cache_provider.cpp:254-279 | a SET succeeds exactly on a status reply; an error reply carries the server's text; string and nil replies are reported as unexpected types 1 and 4 |
| RedisCache.LookupEntry | src/cache/redis_cache_provider.cpp:155-165 | the decoded entry on a hit; the empty entry when disconnected, on any non-string reply, or when decoding fails |
| RedisCache.AddCommands | src/cache/redis_cache_provider.cpp:171-190 | one command per file id plus one, the last being the SET of the serialised entry under the ".entry" key |
| RedisCache.AddCommandsAt | src/cache/redis_cache_provider.cpp:171-186 | the i-th command is the SET of the i-th file id, under that id's key, with the (compressed when the entry says so) file data |
| RedisCache.AddKeysDistinct | src/cache/redis_cache_provider.cpp:171-190 | for any hash, with distinct file ids other than ".entry", every SET of an add writes a different key, so the record never overwrites a file |
| RedisCache.RedisCacheProvider.constructor | src/cache/redis_cache_provider.cpp:66-67 | a new provider is disconnected and has sent nothing |
| RedisCache.RedisCacheProvider.IsConnected | src/cache/redis_cache_provider.cpp:144-146 | connected exactly when a hiredis context is held |
| RedisCache.RedisCacheProvider.Disconnect | src/cache/redis_cache_provider.cpp:148-153 | afterwards the provider is disconnected, whether or not it was connected before |
| RedisCache.RedisCacheProvider.Connect | src/cache/redis_cache_provider.cpp:73-142 | succeeds exactly when the host parses, the link is up, the timeout is set and the AUTH policy accepts; a bad host description changes nothing; any later failure disconnects; success records host, effective port and both timeouts; AUTH is sent only when the policy asks for it |
| RedisCache.RedisCacheProvider.GetData | src/cache/redis_cache_provider.cpp:205-244 | disconnected: fails without sending anything; connected: sends GET for the key, returns the reply's outcome, and disconnects on a failed command |
| RedisCache.RedisCacheProvider.SetData | src/cache/redis_cache_provider.cpp:246-279 | disconnected: fails without sending anything; connected: sends SET of the key and data, returns the reply's outcome, and disconnects on a failed command |
| RedisCache.RedisCacheProvider.Lookup | src/cache/redis_cache_provider.cpp:155-165 | returns the entry LookupEntry describes; the only command it sends is GET of the ".entry" key, and only when connected; a null reply disconnects, and nothing else changes the context |
| RedisCache.RedisCacheProvider.GetFile | src/cache/redis_cache_provider.cpp:193-203 | succeeds exactly when connected and the reply is a string, and then yields the downloaded data, decompressed when the file is stored compressed; otherwise fails with get_data's error; sends one GET only when connected, and disconnects only on a null reply |
| RedisCache.RedisCacheProvider.UploadFile | src/cache/redis_cache_provider.cpp:171-186 | one pass of the loop: an id without an expected file fails out of range and sends nothing; otherwise the file's SET command is sent exactly as SetData would send it |
| RedisCache.RedisCacheProvider.UploadFiles | src/cache/redis_cache_provider.cpp:170-186 | the commands sent are a prefix of the file SETs of AddCommands, and every SET but the last one sent succeeded; it succeeds, having sent them all with the context kept, exactly when every file id has an expected file, every reply is a status and (with at least one file) the provider was connected; on a failure while connected, either the last SET sent got a reply other than a status, or the next file id has no expected file; no SET goes out for a file id without an expected file; the context is dropped, as SetData drops it, exactly when the last reply received was null, and nothing is sent, with the context untouched, when called disconnected (all of this is the predicate UploadedFiles) |
| RedisCache.RedisCacheProvider.Add | src/cache/redis_cache_provider.cpp:167-191 | the commands sent are always a prefix of AddCommands, and every SET but the last one sent succeeded, so the record goes out only after all file SETs succeeded; success, exactly when connected, every file id has an expected file and every reply is a status, means all of them were sent, the record last, with the context kept; on a failure while connected, either the last SET sent got a reply other than a status, or the next file id has no expected file; no SET goes out for a file id without an expected file; the context is dropped, as SetData drops it, exactly when the last reply received was null, and nothing, record included, is sent, with the context untouched, when called disconnected (all of this is the predicate AddedEntry) |
| RedisCache.UploadLoopExit | src/cache/redis_cache_provider.cpp:170-186 | the state in which the upload loop stops, after its first failure or after the last file, satisfies UploadedFiles, with success exactly when no pass failed |
| RedisCache.AddSteps | src/cache/redis_cache_provider.cpp:167-191 | an upload satisfying UploadedFiles, followed by the record SET only when it succeeded while connected, satisfies AddedEntry |
| S3Cache.RelativePath | src/cache/s3_cache_provider.cpp:77 | the object's path: the provider's base path, '/', the key |
| S3Cache.StringToSign | src/cache/s3_cache_provider.cpp:81-82 | the signed text: verb, empty MD5, content type, date and relative path on lines of their own (StringToSignLines reads them back) |
| S3Cache.StringToSignLines | src/cache/s3_cache_provider.cpp:76-82 | cut at its newlines, the signed text is exactly verb, empty MD5, content type, date and relative path |
| S3Cache.S3CacheProvider.constructor | src/cache/s3_cache_provider.hpp:41-43 | a new provider has empty access key, secret and session token |
| S3Cache.S3CacheProvider.Connect | src/cache/s3_cache_provider.cpp:59-71 | with an empty access key or secret it fails and keeps its credentials; otherwise it stores all three and reports the HTTP connection's result |
| S3Cache.S3CacheProvider.SignString | src/cache/s3_cache_provider.cpp:96-100 | the Base64 text of the HMAC-SHA1 of the string keyed with the provider's secret; both primitives are parameters |
| S3Cache.S3CacheProvider.GetHeader | src/cache/s3_cache_provider.cpp:73-94 | three header lines (date, content type, authorization with access key and signature of the signed text), plus the security token line exactly when a session token is set |
| S3Cache.S3CacheProvider.HeaderMatchesSignedText | src/cache/s3_cache_provider.cpp:76-88 | the Date and Content-Type header values are the date and content type lines of the signed text, and its last line is base path, '/', key |

## Left out

- `src/wrappers/gcc_wrapper.hpp` and `src/sys/sys_utils.hpp` (the compiler wrapper and process helpers) are not part of this model.
- `bcache::file` is modelled as its tests pin it down. Its implementation file is not part of this model, so the model's functions are built to meet those tests.
- Staging.UniqueId: a per-process counter rendered as 16 zero-padded digits. Ids issued by different processes or machines are not modelled. The model proves only that one process never repeats an id, not the time-and-randomness construction.
- Staging.TmpFile.constructor: on a collision it retries with fresh ids until the path is free. Turning repeated collisions into an I/O error is not modelled, because a finite file system always leaves a free id.
- Staging.ScopedWorkDir.constructor: a change to a path that is not a directory does not raise the I/O error that `set_cwd` raises; the model records it as `entered == false` and stays in the old working directory, because exceptions are not modelled.
- Staging.TmpFile.Close: removal cannot fail in the model, so the suppression of cleanup errors is not shown.
- `get_temp_dir` is not modelled; the scenarios take the temporary directory as a parameter.
- Concurrency between processes is not modelled. Each process's file-system view is one object.
- FileUtils.CanonicalizePath: relative paths are handled by a choice of this model, because the tests fix only absolute ones. A ".." with nothing to undo is kept, and a relative path that reduces to nothing becomes "".
- The Windows variants (drive letters, backslashes, `dir_exists("c:")`, file_utils_test.cpp:148-154 and 208-226) are not modelled.
- hiredis itself (connecting, timeouts, the wire protocol, `freeReplyObject`, `redisFree`) is replaced by its outcomes, passed in as parameters.
- Decoding the host description (`parse_host_description`) is a parameter. So is the configuration (timeouts, user name, password, S3 keys).
- The "Ignoring path part" log line and all other debug logging are left out, because they do not change any result.
- RedisCache.RedisCacheProvider.GetFile: returns the bytes instead of writing them to the target path, because `file::write` is file I/O.
- RedisCache.RedisCacheProvider.Add: reading source files and compressing them are total function parameters. A failure of `file::read` or `comp::compress` is not modelled.
- RedisCache.RedisCacheProvider.Add: a missing expected file is reported as an out-of-range failure that names the file id, not as the library's own message.
- Cache-entry serialisation and deserialisation are parameters, and so are `comp::compress` and `comp::decompress`. Deserialisation returns `None` where `cache_entry_t::deserialize` throws.
- S3Cache.S3CacheProvider.GetHeader: the date comes in as a parameter (`get_date_rfc2616_gmt` reads the clock and the C locale).
- S3Cache.S3CacheProvider.SignString: SHA-1 HMAC and Base64 are parameters, so the signature is uninterpreted.
- The HTTP provider that S3 builds on (its `connect`, requests and base path) is left out. Its connection result and base path are parameters.
