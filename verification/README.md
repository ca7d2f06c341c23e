# A verified model of the Git LFS server

The server keeps large files for Git clients. A client registers an object, an *oid* (the SHA-256 of the
content in hexadecimal) with a size, alone or in a batch; it is told where to upload or download; it then
transfers the content itself. Metadata lives in Bolt, Cassandra or MySQL, content in a directory tree or in
S3. This project models the stored state and the protocols that change it, and proves what they keep. Check
it with `dafny verify dfyconfig.toml`.

| file | what it models |
|---|---|
| `Upload.dfy` | the upload protocol of the file store, one file-system step at a time: any number of uploads, downloads and crashes interleave |
| `UploadSafety.dfy` | when published files match their oids and sizes: an exact condition on the steps, the side condition on the gap between rename and deferred remove that ensures it, and the three-upload run that breaks it |
| `Downloads.dfy` | what downloads read meanwhile: an exact condition, and a run that keeps every published file complete and yet serves other bytes |
| `UploadCrash.dfy` | what crashes leave behind, and independence of oids |
| `VerifiedUpload.dfy`, `ContentStore.dfy`, `AwsContentStore.dfy` | the two content stores as classes; the file store's `Put` is proved to be an undisturbed run of the protocol, the S3 store to agree with it |
| `KeyPath.dfy`, `Listing.dfy`, `StoreListing.dfy` | sharded paths, the recursive listing, and what it shows after any run of uploads |
| `Base64.dfy`, `BasicAuth.dfy` | Basic credentials (section 2 of RFC 7617, sections 4 and 5 of RFC 4648) and the user table against its history |
| `MetaTypes.dfy` | the registry that all metadata stores implement: first registration wins |
| `BoltStore.dfy`, `CassandraStore.dfy`, `MySQLStore.dfy`, `MetaStoresAgree.dfy` | the three stores as classes, their own tables and invariants, and their refinement of the registry |
| `RegistrationRace.dfy`, `BoltConcurrent.dfy`, `CassandraConcurrent.dfy` | concurrent registrations, one transaction or statement at a time, with crashes, and the race for an oid that both stores run |
| `MySQLConcurrent.dfy` | the same for MySQL, whose key refuses the second writer |
| `Transfers.dfy` | that race and the upload protocol together: when published content has the registered size |
| `Routes.dfy` | addresses, the object routes, and the media types that routes look at |
| `Server.dfy`, `ServerBatch.dfy`, `ServerRuns.dfy`, `ServerAnswers.dfy` | the request handlers over both stores, batches, end-to-end properties of whole runs, and exactly what each request is answered |
| `Tracking.dfy` | the connection-counting listener and graceful shutdown |

Classes (`ContentStore`, `AwsContentStore`, the metadata stores, `App`, `TrackingListener`, `TrackedConn`)
update their fields where the source does, and every method ties its new state to a specification function.
The lemmas are about those functions, so they hold of every sequence of method calls. The concurrent models
are state machines whose runs are arbitrary lists of steps; steps that are not possible change nothing.

## Assumptions

- A file-system call, a Bolt transaction, a Cassandra or MySQL statement and an S3 call are each one atomic
  step. Opening and renaming a file may fail, reading or writing a body may fail at any point, and processes
  crash between any two steps; database statements succeed. A deferred remove that fails is covered as a
  crash of that upload at that point: in both cases the temporary path is left behind.
- A file is identified by the upload that created it, so a directory entry and an open reader name the same
  file the way a path and a descriptor share an inode.
- SHA-256 is an arbitrary function from byte strings to strings; freedom from collisions is a hypothesis
  exactly where a lemma says so.
- Oids have no '/' and no '.' wherever paths matter; the lemmas say so where they need it. Links lead back to
  their object where namespace, repository and oid are non-empty and have no '/', '?' or '#'.
- `check(p, q)` stands for bcrypt comparing `q` with the hash of `p`; the user table holds `p`. Exactness is
  assumed up to 72 bytes. LDAP, where it is enabled, is a fixed oracle.
- Request variables are the decoded ones. A body that is not JSON gives a registration of the empty oid and
  size zero. Gob encoding is the identity. Text is a sequence of characters without collation.

## What turned out differently from what one might expect

- The deferred remove also runs after a successful rename. An upload that opens the temporary path in
  between loses its entry, and its own rename may then publish a third upload's unfinished file:
  `UploadSafety.GapBreaksSafety`. Published files stay complete exactly if no rename finds bytes that do not
  match and no upload writes into a file after it is published (`UploadSafety.SafetyExactly`); not opening
  the path in that gap suffices (`UploadSafety.GapFreeIsSafe`). Downloads need more than complete published
  files, because a file may be replaced at its path and written on while a download holds it
  (`Downloads.CompleteRunServesMore`); `Downloads.DownloadsExactly` gives their exact condition.
- Registering the empty oid fails in Bolt after its project was committed: the projects bucket is the index
  of the registrations exactly if that never happened (`BoltStore.IndexExactly`,
  `BoltStore.EmptyOidBreaksIndex`).
- "First registration wins" is lost to a race: two registrations that both look before either writes are both
  told they are new, and the later size replaces the first (`BoltConcurrent.RaceReplacesSize`,
  `CassandraConcurrent.RaceReplacesSize`). It holds exactly in the runs in which, between the lookup and the
  write of a registration, no other one writes the oid with another size (`BoltConcurrent.FirstWinsExactly`,
  `CassandraConcurrent.FirstWinsExactly`). What clients were told stays true exactly as
  `BoltConcurrent.AnswersHoldExactly` and `CassandraConcurrent.ToldHoldExactly` say. In MySQL sizes never
  change (`MySQLConcurrent.SizesNeverChange`), but the loser of the race is told its own size
  (`MySQLConcurrent.ToldHoldExactly`), and one oid may be mapped twice (`MySQLConcurrent.MappedOnceExactly`). The race can leave published content with another registered size
  than its length; `Transfers.SizesAgreeExactly` says exactly when.
- The header is decoded with the URL-safe alphabet although clients send the standard one; such a header
  is refused exactly if it uses a digit for 62 or 63 (`BasicAuth.CredentialsOfHeader`,
  `BasicAuth.StandardHeaderRefused`).
- The S3 store does not look at read errors of the body, so it judges a truncated body like a complete one
  (`S3ContentStore.AnswersDifferExactlyOnReadErrors`).
- MySQL never finds the row of the empty oid and maps it again each time (`MySQLStore.EmptyOidIsMappedAgain`);
  `MySQLStore.MappedOnceExactly` and `MySQLStore.BalanceExactly` give the exact conditions.
- A batch whose decoding breaks off is not stamped with the request's authorization, so it can be denied
  half-way, after registering objects (`ServerBatch.DeniedKeepsObjectsExactly`,
  `ServerBatch.BrokenBatchRegisters`). A batch drops empty oids
  from its answer (`ServerBatch.AnswersAllExactly`, `ServerAnswers.BatchAnswersExactly`).
- A two-character oid's file stands where longer oids need a directory (`KeyPath.AncestorsExactly`).
- The shutdown wait does not wait for connections to be closed underneath, only for their close to have begun
  (`Tracking.WaitMayPrecedeClose`), although its comment speaks of connections that have finished. They have
  exactly if no close call is still to close one for the first time (`Tracking.FinishedExactly`).
- The file store counts as present whatever it fails to look at, unless the path is known to be absent, so a
  registration may be answered 200 without content then (`ServerRuns.PostStatusExactly`). A download of a
  file that cannot be opened answers 404 like one that is absent (`ServerRuns.DownloadReturnsUpload`).

## Model

| member | source | states |
|---|---|---|
| `UploadSafety.SafetyExactly` | content_store.go:34-72 | in every interleaving of uploads, downloads and crashes, all published files hash to their oids and have their declared sizes at every moment, if and only if no successful rename finds bytes at its temporary path that do not, and no upload writes a byte into a file that is already published |
| `UploadSafety.VerifiedExactly` | content_store.go:59-71 | stronger than needed: every published file has passed the checks of its own upload, at every moment, if and only if no rename publishes one that has not |
| `UploadSafety.VerifiedIsComplete` | content_store.go:59-71 | files published only after their own checks always match their oids and sizes |
| `UploadSafety.DamagingRenameIsForeign` | content_store.go:66-70 | a rename that publishes bytes of another oid or size publishes another upload's file, an unchecked one |
| `UploadSafety.GapFreeIsSafe` | content_store.go:47-71 | every published file has passed its checks and matches its oid and size, in every run in which no upload opens a temporary path between another's rename and its deferred remove |
| `UploadSafety.GapFreeOwnership` | content_store.go:41-47 | in those runs every live upload owns its temporary path until it renames, no two live uploads share an oid, and no temporary path names the file of an upload that has returned |
| `UploadSafety.GapBreaksSafety` | content_store.go:41-71 | without the side condition three uploads of one body end with an empty file at its final path although the second was accepted |
| `UploadSafety.FinalsOnlyGrow` | content_store.go:34-72 | a published path stays published for the rest of any run |
| `UploadSafety.AcceptedIsPublished` | content_store.go:66-71 | in every run, with crashes and opens in the gap, every upload answered as accepted has its path published |
| `UploadSafety.AcceptedIsComplete` | content_store.go:59-71 | and what is published there matches its oid and size in every run that damages no published file |
| `UploadSafety.AnswersAreTrue` | content_store.go:50-71 | in every run the answers fit the bytes each upload received: accepted ones match size and oid, a size mismatch is a wrong length, a hash mismatch the right length with another digest |
| `UploadSafety.ContentNeverChanges` | content_store.go:59-71 | without hash collisions the content at a published path never changes in a run that keeps published files complete |
| `Downloads.DownloadsAreSound` | content_store.go:27-31 | in every run that publishes checked files only, gap-free runs among them, what any download has read is at every moment a prefix of bytes that hash to the oid it asked for |
| `Downloads.ReaderSeesSoundBytes` | content_store.go:27-31 | a download that opened a checked file reads a prefix of bytes that hash to its oid, whatever happens later, in any run |
| `Downloads.ReadDelivers` | content_store.go:27-31 | a read delivers the next bytes of the file held, as many as asked for or all that are left |
| `Downloads.DownloadsExactly` | content_store.go:27-72 | in every interleaving with crashes, every file a download holds matches its oid and size at every moment, if and only if no download opens a published file that does not, and no step writes a byte into a file that a download holds |
| `Downloads.CompleteRunServesMore` | content_store.go:27-72 | a run in which all published files are complete at every moment, and a download reads a body and more after it |
| `Upload.RunKeepsInv` | content_store.go:34-72 | in every run: uploads have distinct files of their own oid, what was hashed is what was written, temporary paths name files of their oid |
| `UploadCrash.TempsBelongToLivePuts` | content_store.go:47 | without crashes every temporary path belongs to the one live upload of its oid |
| `UploadCrash.LeftoversAreCrashedTemps` | content_store.go:36-72 | with crashes, an entry of no live upload is a checked final file or a leftover: the temporary file of an upload that was in flight when a crash ended it, which no live upload will remove |
| `UploadCrash.LeftoverStays` | content_store.go:41-45 | a leftover stays for ever and the published content of its oid stays as it is |
| `UploadCrash.LeftoverRefusesPuts` | content_store.go:41-45 | every later upload of that oid is refused and touches no final file |
| `UploadCrash.OidsAreIndependent` | content_store.go:34-72 | whatever happens to other oids, in any run, an oid's paths, files, uploads, answers and downloads evolve alike |
| `UploadCrash.LeftoverHarmsOnlyItsOid` | content_store.go:41-45 | a leftover makes no difference to any other oid |
| `FileContentStore.SoloPut` | content_store.go:34-72 | an upload that runs undisturbed, from any state, has exactly this outcome and effect: size judged before hash, published only if accepted, temporary path gone |
| `FileContentStore.SoloOutcomeExactly` | content_store.go:34-72 | the exact condition of each answer: accepted, size mismatch before hash mismatch, or an error |
| `FileContentStore.SequentialIsGapFree` | content_store.go:34-72 | one upload after another meets the side condition of safety |
| `FileContentStore.ContentStore.Copy` | content_store.go:49-55 | the hash and the file receive the same bytes, the whole body, and their number is counted |
| `FileContentStore.ContentStore.CopyAndPublish` | content_store.go:41-71 | publishes the body exactly if both checks and the rename succeed, and removes the temporary path in every case |
| `FileContentStore.ContentStore.Put` | content_store.go:34-72 | the store goes through the protocol's steps of one undisturbed upload; the oid holds the new body if accepted and else what it held |
| `FileContentStore.ContentStore.Get` | content_store.go:27-31 | returns the published content if it can be opened, else nothing |
| `FileContentStore.ContentStore.Exists` | content_store.go:75-81 | true exactly if the content is published or looking for it fails for another reason than absence |
| `FileContentStore.ContentStore.ContentsMatchOids` | content_store.go:34-72 | after any calls every object held hashes to its oid |
| `S3ContentStore.AwsContentStore.Put` | aws_content_store.go:78-111 | checks size, then hash, then writes, then compares the stored size; accepts exactly if size and hash match and both the write and the metadata call succeed, and then the path holds this body; read errors of the body go unnoticed |
| `S3ContentStore.S3OutcomeExactly` | aws_content_store.go:78-111 | the exact condition of each answer; the write error comes exactly if the checks pass and the metadata cannot be had afterwards |
| `S3ContentStore.AwsContentStore.Get` | aws_content_store.go:67-70 | returns the body of the latest upload written for the oid's path, which hashes to the oid where oids are plain, and nothing exactly if there was none |
| `S3ContentStore.AwsContentStore.Exists` | aws_content_store.go:113-127 | true exactly if some upload was written for the oid's path and the metadata could be had |
| `S3ContentStore.BucketHoldsLatest` | aws_content_store.go:78-111 | the bucket against its history: a path is there exactly if an upload passed both checks and was written to it, with the body of the latest |
| `S3ContentStore.StoresAgree` | aws_content_store.go:78-111 | both content stores give the same answers to any series of uploads of readable bodies and hold the same objects afterwards |
| `S3ContentStore.AnswersDifferExactlyOnReadErrors` | aws_content_store.go:78-98 | with nothing else failing their answers differ exactly if reading the body fails |
| `KeyPath.UnslashRecoversKey` | shared_content_store.go:5-11 | removing the separators of a path gives the oid back |
| `KeyPath.PathsAreInjective` | shared_content_store.go:5-11 | no two oids share a path, and no final path is a temporary path |
| `KeyPath.AncestorsExactly` | shared_content_store.go:5-11 | a path is a directory on the way to another exactly if its oid is the two-character first shard of a longer one |
| `Listing.ReadDir` | server.go:181-198 | the nested loops return exactly the relative paths of the tree, and end |
| `Listing.ListingExactly` | server.go:181-198 | a path is listed if and only if it leads to a file of the tree |
| `Listing.ListingDistinct` | server.go:181-198 | no path is listed twice |
| `Listing.InsertAddsFile` | content_store.go:36-41 | making the directories of a path and its file adds this file to the tree and changes no other |
| `Listing.InsertKeepsShape` | content_store.go:36-41 | oids of three characters or more never clash with what is stored |
| `StoreListing.ListingShowsTheStore` | server.go:181-198 | after any run, crashed or not, that damaged no published file and left no temporary one, the listing shows each stored oid's path once and nothing else, and each oid read from it is the hash of its content |
| `StoreListing.QuietStoreIsListed` | server.go:181-198 | so it does after any gap-free run without crashes, whenever no upload is in flight |
| `StoreListing.OnlyOidsListedExactly` | server.go:181-198 | in any state, slash removal gives stored oids only, exactly if no temporary file is left |
| `StoreListing.StoreHasTree` | content_store.go:36-41 | after any run, crashed or not, the entries form a directory tree |
| `Base64.DecodeEncoded` | meta_store.go:299-303 | text in the URL-safe alphabet decodes to what was encoded; text in the standard one does so exactly if no sextet is 62 or 63, and is refused otherwise |
| `Base64.OnlyEncodingsDecode` | meta_store.go:299-303 | nothing else decodes: newlines aside, a text that does is the encoding of its bytes up to the spare bits of the last digit |
| `Base64.KnownEncodings` | meta_store.go:299 | the examples of section 10 of RFC 4648, and the digits on which the alphabets differ |
| `BasicAuth.IndexByte` | meta_store.go:305 | the first position of the byte, negative exactly if it does not occur |
| `BasicAuth.CredentialsExactly` | meta_store.go:292-309 | user and password are read exactly from a header that is "Basic " and a text decoding to the user, a colon and the password, the user having no colon |
| `BasicAuth.AdmittedExactly` | meta_store.go:287-329 | for any header, table and directory: a private server admits exactly those whose header names a user and password that the directory or the table accepts, so an empty, foreign, undecodable or colonless header is refused |
| `BasicAuth.CredentialsOfHeader` | meta_store.go:292-309 | a header gives back user and password, split at the first colon, exactly if it decodes |
| `BasicAuth.StandardHeaderRefused` | meta_store.go:299-303 | the standard header of user "a" with password ">" is refused, the URL-safe one is read |
| `BasicAuth.UsersAgainstHistory` | meta_store.go:198-235 | a user is in the table exactly if added since the last deletion, with the password of the earliest such addition |
| `BasicAuth.AuthenticatesExactly` | meta_store.go:287-329 | a header authenticates against the table if and only if its password is that of the earliest addition of the user after the last deletion and its alphabet is readable |
| `MetaTypes.FirstRegistrationWins` | server.go:61-71 | the registry against its history: the first authorised registration of an oid fixes its size for ever |
| `MetaTypes.AnswersExactly` | server.go:61-71 | every answer to a lookup or registration against history: refused, found with the size first given and as existing by registrations only, registered with its own size, not found, or rejected for the empty oid |
| `MetaTypes.UserAnswersExactly` | meta_store.go:198-235 | changes of users are refused with LDAP, and the addition of the empty name without |
| `MetaTypes.UsersFollowOps` | meta_store.go:198-235 | without LDAP the user table is what the additions and deletions asked for so far make of it |
| `BoltStore.MetaStore.GetMeta` | meta_store.go:59-86 | refuses the unauthorised, then returns the registered object or that there is none |
| `BoltStore.MetaStore.MakeProject` | meta_store.go:113-141 | creates the project with this oid unless there is one or the repository is empty |
| `BoltStore.MetaStore.PutMeta` | meta_store.go:144-190 | returns a known object as existing; else commits project, then object, which the empty oid makes fail |
| `BoltStore.MetaStore.AddUser` | meta_store.go:198-217 | keeps an existing user's password; refuses the empty name |
| `BoltStore.MetaStore.DeleteUser` | meta_store.go:220-235 | removes the user, known or not |
| `BoltStore.IndexExactly` | meta_store.go:113-183 | the projects bucket is the index of the registrations (each repository with its first oid) if and only if no empty oid was registered in a repository without project |
| `BoltStore.EmptyOidBreaksIndex` | meta_store.go:113-183 | on a public server one registration of the empty oid leaves a project that no object explains |
| `BoltStore.OrphanStays` | meta_store.go:113-183 | a project with the empty oid stays that way for ever |
| `CassandraStore.CassandraMetaStore.CreateProject` | cassandra_meta_store.go:31-40 | creates the project with no oids unless it is there |
| `CassandraStore.CassandraMetaStore.CreateOid` | cassandra_meta_store.go:49-51 | writes the oid's row; the empty key is refused |
| `CassandraStore.CassandraMetaStore.GetMeta` | cassandra_meta_store.go:192-209 | refuses the unauthorised, then returns the row or that there is none |
| `CassandraStore.CassandraMetaStore.PutMeta` | cassandra_meta_store.go:151-178 | returns a known oid as existing; else writes the row, then the project and its set |
| `CassandraStore.ListedExactly` | cassandra_meta_store.go:42-47 | after any calls a project lists exactly the oids that were registered as new in its repository |
| `CassandraStore.ProjectsExactly` | cassandra_meta_store.go:31-47 | there is a project exactly for each repository that lists something |
| `CassandraStore.CassandraMetaStore.AddUser` | cassandra_meta_store.go:229-244 | keeps an existing user's password |
| `CassandraStore.CassandraMetaStore.DeleteUser` | cassandra_meta_store.go:250-255 | removes the user; the empty name is refused |
| `MySQLStore.MySQLMetaStore.CreateOid` | mysql_meta_store.go:147-155 | inserts a row unless the key is there |
| `MySQLStore.MySQLMetaStore.GetMeta` | mysql_meta_store.go:273-292 | refuses the unauthorised, then returns the row; the empty oid is never found |
| `MySQLStore.MySQLMetaStore.PutMeta` | mysql_meta_store.go:239-268 | inserts the oid's row before it looks for the project, whose absence is then an error |
| `MySQLStore.PutAnswersExactly` | mysql_meta_store.go:239-268 | the exact condition of each answer, and what it says |
| `MySQLStore.AdmitsExactly` | mysql_meta_store.go:354-386 | everybody on public servers, else exactly those whose header names a user and password that the directory accepts |
| `MySQLStore.MappedExactly` | mysql_meta_store.go:207-268 | after any calls an oid is mapped to a project exactly if it was answered as new under the name of this project |
| `MySQLStore.MySQLMetaStore.AddProject` | mysql_meta_store.go:305-308 | gives a new name a new id; a known name is an error |
| `MySQLStore.Conservation` | mysql_meta_store.go:147-268 | every mapped oid and project exists, no oid but the empty one is mapped twice, and rows of oids + repeated mappings = rows of mappings + first registrations without repository or with an unknown one |
| `MySQLStore.EmptyIsCounted` | mysql_meta_store.go:207-268 | the empty oid is mapped as often as an admitted registration of it named a known repository |
| `MySQLStore.MappedOnceExactly` | mysql_meta_store.go:207-268 | each oid is mapped at most once if and only if at most one admitted registration of the empty oid named a known repository |
| `MySQLStore.BalanceExactly` | mysql_meta_store.go:147-268 | rows of oids = rows of mappings + first registrations without repository or with an unknown one, if and only if no registration mapped the empty oid after an earlier one had registered it |
| `MySQLStore.EmptyOidIsMappedAgain` | mysql_meta_store.go:220-268 | two registrations of the empty oid in one project, by anybody admitted, map it twice and leave one row |
| `MetaStoresAgree.BoltRefines` | meta_store.go:59-235 | after any calls Bolt holds the registry's sizes and users and answers the next call like it |
| `MetaStoresAgree.BoltAndCassandraAgree` | cassandra_meta_store.go:151-255 | after any calls Bolt and Cassandra hold the same oids, sizes and users, and answer the next call alike exactly unless it registers the empty oid or deletes the empty user |
| `MetaStoresAgree.StoresAuthenticateExactly` | cassandra_meta_store.go:308-347 | after any calls, Bolt and Cassandra refuse a lookup or registration for its credentials exactly unless they prove the password of the earliest addition of the user after the last deletion |
| `MetaStoresAgree.MySQLRefines` | mysql_meta_store.go:239-292 | as long as it lets in the same callers as the registry, MySQL holds the registry's sizes after any calls, answers lookups alike, and registrations alike exactly unless a new oid is empty or names an unknown repository |
| `MetaStoresAgree.AdmissionsAgree` | mysql_meta_store.go:354-386 | it lets in the same callers on public servers, with LDAP, and as long as nobody adds a user |
| `BoltConcurrent.ProjectsComeFirst` | meta_store.go:149-183 | in every interleaving, with crashes, the project of a stored object exists at every step |
| `BoltConcurrent.ExplainedExactly` | meta_store.go:113-183 | every listed oid is stored or about to be, at every step, if and only if no crash or refusal removes the last registration about to store one |
| `BoltConcurrent.QuietProjectsListObjects` | meta_store.go:113-183 | without crashes and empty oids, with none in flight, every listed oid is registered |
| `BoltConcurrent.CrashOrphans` | meta_store.go:113-183 | a crash between the transactions leaves a listed oid that is not registered |
| `BoltConcurrent.RaceReplacesSize` | meta_store.go:149-183 | two concurrent registrations are both answered as new and the later size stays |
| `RegistrationRace.SizesStayExactly` | meta_store.go:149-183 | registered sizes never change if and only if no write replaces another size |
| `RegistrationRace.DisputesExactly` | meta_store.go:149-183 | that is, if and only if no registration writes an oid that another wrote, with another size, between the lookup and the write of the first |
| `RegistrationRace.StillNewExactly` | meta_store.go:149-183 | a registration about to write finds its oid still new exactly if no other one wrote it since its lookup |
| `BoltConcurrent.FirstWinsExactly` | meta_store.go:149-183 | in every interleaving with crashes, sizes never change exactly if no transaction writes over another size, exactly if no registration is disputed between its lookup and its write |
| `BoltConcurrent.NewIsTrueExactly` | meta_store.go:149-183 | an answer that the object was new is true exactly if no other registration wrote the oid since the lookup |
| `BoltConcurrent.AnswersHoldExactly` | meta_store.go:149-183 | every size ever told to a client stays the registered one, exactly if no transaction writes over another size |
| `BoltConcurrent.UndisturbedIsSequential` | meta_store.go:144-190 | the transactions of one undisturbed registration do what the sequential store does |
| `CassandraConcurrent.RowsComeFirst` | cassandra_meta_store.go:31-51 | in every interleaving of statements, with crashes, every listed oid has a row and every oid answered as new in a repository is listed there |
| `CassandraConcurrent.ListedExactly` | cassandra_meta_store.go:42-47 | in every interleaving a project lists exactly the oids that some registration added to it, each registered by one that named this oid and this repository |
| `CassandraConcurrent.ListedForGood` | cassandra_meta_store.go:42-51 | a listed oid stays listed and registered |
| `CassandraConcurrent.NewStaysListed` | cassandra_meta_store.go:151-178 | once a registration in a repository is answered as new, its oid stays in that project |
| `CassandraConcurrent.FirstWinsExactly` | cassandra_meta_store.go:49-51 | in every interleaving of statements with crashes, sizes never change exactly if no insert replaces another size, exactly if no registration is disputed between its select and its insert |
| `CassandraConcurrent.NewIsTrueExactly` | cassandra_meta_store.go:151-178 | an oid inserted as new is new exactly if no other registration inserted it since the select |
| `CassandraConcurrent.ToldHoldExactly` | cassandra_meta_store.go:151-178 | every size ever told to a client stays the one in the table, if and only if no insert replaces a row whose size was told and no registration tells its size after its row was replaced |
| `CassandraConcurrent.AnswersStayTrue` | cassandra_meta_store.go:151-178 | if no insert replaces another size, every size told to a client stays the one in the table, and so does every size inserted by a registration in flight |
| `CassandraConcurrent.RaceReplacesSize` | cassandra_meta_store.go:151-178 | two registrations that both select before either inserts are both told they are new, and the later size stays |
| `CassandraConcurrent.UndisturbedIsSequential` | cassandra_meta_store.go:151-178 | the statements of one undisturbed registration do what the sequential store does |
| `MySQLConcurrent.SizesNeverChange` | mysql_meta_store.go:147-155 | in every interleaving of statements with crashes, a registered size never changes |
| `MySQLConcurrent.MappingsExist` | mysql_meta_store.go:207-268 | at every step every mapped oid has its row and every mapped project exists |
| `MySQLConcurrent.ToldHoldExactly` | mysql_meta_store.go:239-268 | every size told to a client is the registered one, if and only if no registration is answered as new whose insert was refused for a row of another size |
| `MySQLConcurrent.StillNewExactly` | mysql_meta_store.go:239-268 | an insert finds no row exactly if no other registration inserted the oid since the select |
| `MySQLConcurrent.MappedOnceExactly` | mysql_meta_store.go:207-268 | each non-empty oid is mapped at most once, if and only if no registration maps an oid that another one mapped between the select and the mapping of the first |
| `MySQLConcurrent.UndisturbedIsSequential` | mysql_meta_store.go:239-268 | the statements of one undisturbed registration do what the sequential store does |
| `Transfers.SizesAgreeExactly` | server.go:290-309 | in every interleaving of racing registrations, uploads and crashes, published content has the registered length at every moment, if and only if no registration resizes published content, no rename publishes bytes of another length, and no upload writes into a published file |
| `Transfers.GapFreeSizesAgreeExactly` | server.go:290-309 | without opens in the gap, if and only if no registration resizes published content and no rename publishes content for a size that was replaced |
| `Transfers.UndisputedIsSized` | server.go:290-309 | without opens in the gap it has if no registration is disputed between its lookup and its write |
| `Transfers.RaceMissizes` | server.go:290-309 | the race does give published content another registered size |
| `Server.UnpackBatch` | server.go:376-394 | stamps every object in place with the request's namespace, repository and authorization, unless decoding broke off |
| `Server.App.PostHandler` | server.go:224-248 | the stores and the response follow the handlers' state machine; 200 only for known objects with content |
| `Server.App.HandleObject` | server.go:257-273 | one object of a batch: looked up, denied, or registered if unknown |
| `Server.App.BatchHandler` | server.go:251-287 | the loop is the fold over the objects that denial ends |
| `Server.App.PutHandler` | server.go:290-309 | uploads to a registered oid only, judged by the registered size |
| `Server.App.GetContentHandler` | server.go:139-160 | answers with the stored content of a registered oid if it can be opened |
| `ServerBatch.BatchConcat` | server.go:251-287 | a batch xs + ys answers and changes what xs then ys would |
| `ServerBatch.DeniedExactly` | server.go:251-274 | an intact batch answers 401 if and only if it is not empty and its sender is not authorised; then nothing has changed |
| `ServerBatch.DeniedKeepsObjectsExactly` | server.go:376-394 | a batch denied at an object leaves the objects alone exactly if nothing before it was new |
| `ServerBatch.BrokenBatchRegisters` | server.go:376-394 | a batch whose decoding broke off registers its first object and is then denied for its second |
| `ServerBatch.BatchRegisters` | server.go:251-287 | an authorised batch keeps all registrations and registers each new oid with the size of its first object |
| `ServerBatch.BatchReplies` | server.go:251-287 | an authorised batch answers its objects of non-empty oid in order: the first object of a new oid with an upload link alone, all others with a download link alone, with the registered size |
| `ServerBatch.AnswersAllExactly` | server.go:270-273 | it answers every object exactly if no oid is empty |
| `ServerBatch.BatchAgain` | server.go:251-287 | handled again, any authorised batch changes nothing and gets download links only, for the same oids with the same sizes |
| `ServerBatch.LinkRoutesBack` | server.go:80-88 | the address of a link has the host, the configured scheme exactly if it mentions https, and a path that routes to exactly the namespace, repository and oid of the request |
| `ServerBatch.LinkLeads` | server.go:313-342 | so does each link shown, whose Accept value the content routes match on, not the metadata routes, and which carries the authorization exactly on private servers |
| `ServerAnswers.BatchAnswersExactly` | server.go:251-287 | a batch is answered 200 exactly if all its objects are authorised, else 401; then the response shows its objects of non-empty oid in order, with the right links and registered sizes |
| `ServerAnswers.IntactBatchAnswers` | server.go:251-287 | an intact batch from an authorised sender shows its objects of non-empty oid in order, every link leading to the object in the namespace and repository of the request |
| `ServerAnswers.BatchTwice` | server.go:251-287 | the same request sent twice changes nothing the second time and is answered with download links for the same objects and sizes |
| `ServerAnswers.RegisteredInRepository` | server.go:376-394 | a new oid of an intact batch is registered in the repository of the request, which has a project then |
| `ServerRuns.AlwaysConsistent` | server.go:139-309 | in every sequential run, content exists only for registered oids, in the registered size, and hashes to the oid |
| `ServerRuns.FirstSizeWins` | server.go:224-287 | in every mix of requests an oid is registered once an authorised post or batch names it, with the size the first one gave |
| `ServerRuns.ContentIsLastUpload` | server.go:290-309 | content exists exactly for oids with an acknowledged upload, and is the body of the latest |
| `ServerRuns.DownloadReturnsUpload` | server.go:139-160 | a download is 401 exactly if unauthorised, 200 exactly if authorised, uploaded and the file can be opened, and then returns the bytes of the latest acknowledged upload, of the registered size and matching the oid |
| `ServerRuns.PostStatusExactly` | server.go:224-248 | a post is 200 exactly if authorised, registered before, and uploaded or the content could not be looked for; with the content there the size is that of the content; 404 exactly for the empty oid; the links lead to the object |
| `ServerAnswers.PutStatusExactly` | server.go:290-309 | an upload is 401 exactly if unauthorised, 404 exactly if unregistered, 200 exactly if the body is complete, matches the registered size and the oid, and the disk obeys, else 500 |
| `ServerAnswers.UserStatusExactly` | mgmt.go:216-245 | changes of the user table are confirmed by a redirect exactly if they name somebody and LDAP is off |
| `ServerAnswers.RefusedExactly` | server.go:139-309 | on a private server every post, upload, download and non-empty intact batch is 401 exactly if its header names nobody who is accepted, as the empty header does; then it changes nothing |
| `ServerRuns.ContentStays` | content_store.go:59-71 | without hash collisions, content once there is there for ever, unchanged |
| `ServerRuns.UploadableExactly` | meta_store.go:149-153 | without hash collisions, a registered oid can be uploaded in some continuation exactly if it was registered with its preimage's length |
| `ServerRuns.UsersFollowRequests` | mgmt.go:216-245 | without LDAP the user table is what the additions and deletions among the requests make of it |
| `ServerRuns.ServerAuthenticatesExactly` | meta_store.go:287-329 | after any mix of requests a post, upload or download answers 401 exactly unless its header proves the password of the earliest addition of the user after the last deletion |
| `Tracking.CountIsExact` | tracking_listener.go:62-95 | under any interleaving the counter is the accepts in progress plus the connections whose once has not completed, so never negative |
| `Tracking.CloseBegunExactly` | tracking_listener.go:91-95 | a close has begun exactly on the connections being closed or whose once has completed |
| `Tracking.WaitComesLast` | tracking_listener.go:80-83 | when the wait has returned the accept loop has ended and a close has begun on every connection ever accepted |
| `Tracking.WaitReturnsExactly` | main.go:143-145 | with no close in progress the wait can return if and only if every accepted connection was closed |
| `Tracking.CloseNeverSticks` | tracking_listener.go:91-95 | every close call can move, or the one that holds the once can |
| `Tracking.NothingAfterWait` | main.go:143-145 | after the wait nothing is accepted or counted |
| `Tracking.WaitMayPrecedeClose` | tracking_listener.go:91-95 | the wait may return before the connection underneath is closed |
| `Tracking.FinishedExactly` | tracking_listener.go:78-95 | when the wait has returned, all connections are closed underneath if and only if no close call is still to close one for the first time |
| `Tracking.TrackingListener.Accept` | tracking_listener.go:62-76 | counts, accepts, and takes the count back on failure |
| `Tracking.TrackingListener.WaitForChildren` | tracking_listener.go:80-83 | returns at once exactly if every connection was closed |
| `Tracking.TrackedConn.Close` | tracking_listener.go:85-95 | counts down on the first call only and closes underneath on every call |

## Left out

- HTTP routing beyond the object routes (path cleaning of "." and "..", percent encoding), JSON encoding,
  templates, the management pages and their session: user interface and plumbing.
- The search and metadata handlers: they only look up, like the download handler.
- Null objects in a batch, on which the source panics: a batch of the model has none.
- LDAP connection, search and bind; the internals of bcrypt and SHA-256; database and S3 clients; disk
  flushing and power loss.
- Failing database statements: a failing transaction would be a crash of that registration at that point.
- Cassandra's lists of users and projects (the first appends the address of one variable, the second differs
  from Bolt, which keeps the first oid only), the other list functions, and its removal functions, which are
  not part of the store interface.
- The TLS path: it accepts from the listener underneath, so its connections are not tracked.
- Configuration, logging, the unused connection table of the listener, bucket creation and access control of S3.
- The order in which a directory is read; the listing theorems hold for every order.
- MySQL's column width and collation, and the projects its own user interface shows.
- Concurrent changes of the user table while registrations run: the concurrent models start after authorisation.
- Server.App: handles one request at a time, on a content store without leftovers of crashes; concurrency and
  crashes are modelled for each store by itself.
- Listing.InsertAddsFile: the upload protocol does not build the tree; a tree is any that shows the entries.
