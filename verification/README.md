# boxr: a model of its algorithms

boxr is a container engine. Around its input and output it holds a dozen self-contained algorithms: glob
matching, the unpacking of image layers, the ordering of compose services, the allocation of addresses, the
comparison of file systems, codecs and parsers, log rotation and the admission of host ports. This project
models them and proves what they promise.

`dafny verify dfyconfig.toml` checks the whole project. There is one module per file:

| module | models |
|---|---|
| `Wrappers`, `Text` | Rust's `Option`, `Result` and the operations of `str` that the code is built from |
| `Glob` | `matches_wildcard`, `pattern_matches` and `.dockerignore` rules |
| `Markers` | the names of whiteout markers |
| `Tree`, `Layers`, `Overlay`, `ImageStack` | unpacking a layer in place, the declarative overlay of the OCI Image Format Specification, and the fold over all layers of an image |
| `Compose` | the depth-first search that orders services |
| `Bits`, `Addresses`, `Networks` | 32-bit operators, first-fit allocation, and the network store |
| `FsDiff`, `DiffTheorems` | the two walks of a file system comparison, and what their records mean |
| `Reference` | parsing and printing image references |
| `Base64`, `Utf8`, `Credentials` | section 4 of RFC 4648, UTF-8, and the credential store |
| `KeyValue` | key/value pairs of Dockerfile lines |
| `LogRotation` | size-based rotation before each append |
| `Ports` | host port admission |
| `Environment` | the layered environment of a container |
| `CopyPath` | resolving a path inside a container |

Code that works step by step is a method or a class with the same loops, branches and error exits, specified by a
function or relation of its inputs or its old state; the theorems are about that function. Where the code is known
to miss a promise on some inputs, the theorem is an if-and-only-if with the condition under which it keeps it.

## Where the code and its promises differ

- `matches_wildcard` compares a character of the pattern literally before it treats `*` as a wildcard. A text is
  matched rightly by all patterns exactly when it has no `*` (`Glob.SafeTextsHaveNoStar`), and a pattern matches all
  texts rightly exactly when it has none (`Glob.SafePatternsHaveNoStar`).
- `unpack_layer` clears an opaque directory when it meets the marker, removes whiteouts at the end, ignores the
  failure to replace a file by a directory or the other way round, takes a bare `.wh.` for the directory it is in, and
  stops at an entry below a file of a lower layer and at a whiteout of a name with `..` in it. It gives the overlay
  exactly for layers that are well formed for the tree they are unpacked over
  (`Overlay.UnpackIsOverlayIffWellFormed`); six lemmas show inputs that miss it.
- `display_name` drops `library/` and the default registry without looking at the rest; `Reference.DisplayRoundTrip`
  says exactly when the short name still finds the reference, `Reference.NestedLibraryImageIsLost` for what it does
  not.
- A space before a digest stays in the tag, and the canonical name then gives another reference
  (`Reference.CanonicalRoundTrip`, `Reference.SpaceBeforeDigestIsLost`).
- A line without an equals sign that starts with white space gives a pair with an empty key, which is lost
  when it is printed and parsed again (`KeyValue.ReprintedLineMeansTheSame`, `KeyValue.LeadingSpaceIsLost`).
- The refusal to remove the default network looks only at its name, so a prefix of its id removes it
  (`Networks.DefaultNetworkSurvivesIff`, `Networks.PrefixRemovesDefaultNetwork`).
- The default subnet of a new network is counted from the number of networks, so after a removal it can be that of
  another network: exactly when one has the subnet that the count gives (`Networks.DefaultSubnetIsFreshIff`,
  `Networks.EveryRunApartIff`). `Networks.RemovalRepeatsSubnet` is a run in which it happens; without removals and
  given subnets it never does (`Networks.DefaultSubnetsStayApart`).
- With whiteout markers in the container a comparison can name a path twice: exactly when a marker stands beside an
  entry of the name it hides that has a record of its own (`DiffTheorems.ComparisonSortedAndDistinct`,
  `DiffTheorems.MarkerBesideAdded`).
- The port check is made when a container is run, not when one is started, unpaused or restored;
  `Ports.StartKeepsExclusiveIff` says exactly when that is harmless, `Ports.StartTakesPortTwice` shows when it is not.
- A user name with a colon does not come back from the credential store (`Credentials.LoginThenGet`,
  `Credentials.ColonInUserName`).

## Model

| member | source | states |
|---|---|---|
| Glob.MatchesWildcard | src/builder/dockerignore.rs:55-83 | the loop with one remembered star terminates, and on a text or pattern without `*` its answer is the glob relation |
| Glob.LatestStarIsEnough | src/builder/dockerignore.rs:63-78 | in every coherent state the final verdict is that the rest matches here or at a later attempt of the latest star; earlier stars are not needed |
| Glob.ScanMeansMatches | src/builder/dockerignore.rs:55-83 | the scan decides the glob relation for every pattern and every text, if one of them has no `*` |
| Glob.SafeTextsHaveNoStar | src/builder/dockerignore.rs:64-70 | a text is matched rightly by every pattern if and only if it contains no `*` |
| Glob.SafePatternsHaveNoStar | src/builder/dockerignore.rs:64-70 | a pattern matches every text rightly if and only if it contains no `*` |
| Glob.OneStarPatternIsGlob | src/builder/dockerignore.rs:40-53 | a pattern with one star, no `?` and no trailing slash is matched as the glob it is, on every path |
| Glob.PlainPatternMeaning | src/builder/dockerignore.rs:52 | any other pattern matches the path itself, what lies below it, and a path that ends in its components |
| Glob.DirectoryCoversContents | src/builder/dockerignore.rs:40-53 | a line that names a directory, with a slash behind or not, covers what is in it |
| Glob.TrailingSlashIgnored | src/builder/dockerignore.rs:41 | slashes behind a pattern make no difference |
| Glob.ExceptionLine | src/builder/dockerignore.rs:28-34 | an exclamation mark in front makes an exception of the same pattern |
| Glob.OneStarPatternAgreesWithScanner | src/builder/dockerignore.rs:40-83 | the two matchers agree on such patterns for every path without `*` |
| Glob.DockerIgnore.IsIgnored | src/builder/dockerignore.rs:24-37 | a path is ignored iff the last line that matches it is no exception |
| Layers.SpellsNames | src/oci/image.rs:194-213 | the names an entry is unpacked at are those its path spells, in their order, with steps that stay anywhere between; a path with a parent step, a root or a prefix spells none |
| Layers.NamesConcat | src/oci/image.rs:266 | the names of paths put together follow one another |
| Layers.ClassifyMeaning | src/oci/image.rs:194-265 | an entry is the opaque marker of a directory, a whiteout of a name in it, or a node at a path iff its path spells so |
| Layers.RefusedEntries | src/oci/image.rs:196-248 | an entry is refused iff a step leads out, or it is a whiteout of a name with a slash, a backslash or two dots in a row |
| Layers.Rootfs.ClearDirectory | src/oci/image.rs:226-233 | removing the children one by one, in any order, removes exactly what lies strictly below |
| Layers.Rootfs.RunEntries | src/oci/image.rs:190-309 | the loop over the entries is the stepwise pass and notes the whiteouts in order; on an error it stops there |
| Layers.Rootfs.UnpackLayer | src/oci/image.rs:166-328 | one call is the pass followed by the noted removals, and leaves a tree |
| Layers.Rootfs.PullLayers | src/lib.rs:1113-1118 | the fold over the layers stops at the first error |
| Overlay.PassInvariant | src/oci/image.rs:190-309 | for any archive over any tree, each path on disk has had its own fate, whatever the entries did at other paths |
| Overlay.PassSucceedsIffUnblocked | src/oci/image.rs:190-282 | for any archive, the pass goes through iff every entry is acceptable and, when it is reached, no file stands where it needs a directory |
| Overlay.NodeAtMeaning | src/oci/image.rs:214-295 | what the layer holds at a path is there after the pass iff no marker took it away and its last entry found nothing of the other kind; elsewhere the lower node is there unless it was cleared |
| Overlay.RemovalsAt | src/oci/image.rs:311-325 | for any archive, the deferred removals take exactly the paths at or below a whiteout, and for a bare `.wh.` or `.wh..` its directory or all that is in it |
| Overlay.OpaqueFirstMeansAllLive | src/oci/image.rs:214-237 | everything a layer adds survives its own opaque markers iff each marker comes before the entries below it or they come again |
| Overlay.UnpackIsOverlayIffWellFormed | src/oci/image.rs:162-328 | unpacking any archive over any tree gives the declarative overlay if and only if the layer is well formed for that tree |
| Overlay.TreeShapedWellFormed | src/oci/image.rs:190-325 | for a layer whose entries describe one tree the condition can be read off the layer and the tree below it: no surviving lower file in the way, no surviving lower node of the other kind, opaque markers first, no self-whiteout |
| Overlay.FileOverDirectoryIsLost | src/oci/image.rs:284-295 | an input on which a change of kind is lost |
| Overlay.LateOpaqueMarkerRemovesOwnEntry | src/oci/image.rs:214-237 | an input on which a late opaque marker removes an entry of its own layer |
| Overlay.SelfWhiteoutRemovesOwnEntry | src/oci/image.rs:311-325 | an input on which a whiteout removes an entry of its own layer |
| Overlay.BareMarkerRemovesItsDirectory | src/oci/image.rs:240-263 | an input on which a bare `.wh.` removes the directory it is in, with an entry of its own layer |
| Overlay.EntryIsFoundIff | src/oci/image.rs:265-295 | an entry that is no marker is found at exactly the path it spells iff no file is above it and no node of the other kind at it |
| Overlay.DottedWhiteoutStopsLayer | src/oci/image.rs:240-248 | an input on which a whiteout of a name with two dots in it stops the layer |
| Overlay.EntryBelowFileStopsLayer | src/oci/image.rs:266-270 | an input on which an entry below a lower file stops the layer |
| Overlay.NoMarkerFileIsAdded | src/oci/image.rs:187-263 | whatever the archive holds, no regular file named `.wh.*` is added |
| ImageStack.FoldIsTopDownIff | src/lib.rs:1113-1118 | for any stack of any layers: after every layer the fold agrees with looking each path up from the top, if and only if each layer is well formed for what the layers below it show |
| ImageStack.NextLayerShownIff | src/lib.rs:1113-1118 | one more layer over layers that are unpacked as they show: the whole agrees if and only if the new layer is well formed for what they show |
| ImageStack.FoldIsTopDown | src/lib.rs:1113-1118 | hence folding well-formed layers from the empty tree goes through and agrees with the lookup from the top |
| ImageStack.FinalTreeShownIff | src/lib.rs:1113-1118 | the final tree alone agrees, whatever the layers in between did, if and only if no layer is stopped and each path was treated rightly by the last layer that speaks about it |
| ImageStack.RootMarkerRepairs | src/lib.rs:1113-1118 | so a later layer can repair what went wrong below it: one that empties the root does, over any stack that goes through |
| ImageStack.OneTreeIsWellFormed | src/lib.rs:1113-1118 | layers that are in order, and among which no path is both a file and a directory, are well formed |
| ImageStack.KindMayChangeAfterWhiteout | src/lib.rs:1113-1118 | but a path may change its kind when a layer between removes it: a stack that is well formed and does so |
| ImageStack.FilePresentIffLastAdded | src/lib.rs:1113-1118 | a regular file is present with content c iff some layer adds it with c and no later one adds it again, whites out it or an ancestor, or marks an ancestor opaque |
| Compose.Visitor.VisitService | src/compose/mod.rs:135-173 | a visit extends the order topologically and restores the visiting set, or returns a real cycle or a really undefined dependency; its recursion terminates |
| Compose.DependencyOrder | src/compose/mod.rs:121-133 | for any iteration order of the services: success iff all dependencies are defined and there is no cycle, and then each service exactly once after all its dependencies |
| Compose.FullOrderMeansNoCycle | src/compose/mod.rs:120-133 | a topological order of all services excludes undefined dependencies and cycles |
| Addresses.BlockBounds | src/network/mod.rs:624-629 | the mask, and and or of the code give the first and last address of the block of 2^(32-p) addresses, without overflow |
| Addresses.SubnetIsBlock | src/network/mod.rs:624-629 | an address is between network and broadcast address iff it has the same first p bits as the base |
| Addresses.HostCount | src/network/mod.rs:637-639 | a supported subnet has 2^(32-p) - 2 host addresses |
| Addresses.AllocateIp | src/network/mod.rs:607-652 | the least free host address other than the gateway; exhausted iff all are taken; each other error iff its cause |
| Addresses.OctetsAre | src/network/mod.rs:475-481 | the octets of a hardware address are those of the address, in their order |
| Addresses.MacOfInjective | src/network/mod.rs:475-481 | different addresses have different hardware addresses |
| Networks.NetworkStore.EnsureDefaultNetwork | src/network/mod.rs:250-279 | unless the name is taken, the record appended is `boxr0` with its id, driver and subnet, and nothing else |
| Networks.NetworkStore.CreateWithOptions | src/network/mod.rs:317-372 | success iff the name is valid and free; the record appended has each option in its own field, with a subnet and gateway counted from the number of networks where none is given |
| Networks.PrivateNetworkMeaning | src/network/mod.rs:345-350 | the default subnet is 172.n.0.0/16 and the default gateway the first host address in it, while n fits an octet |
| Networks.NetworkStore.UpdateNetwork | src/network/mod.rs:374-417 | the first selected record gets its servers and labels added, then dropped; nothing else changes |
| Networks.NetworkStore.RemoveWithForce | src/network/mod.rs:423-452 | the first selected record goes unless it is named as the default or has endpoints and force is not set |
| Networks.NetworkStore.ConnectContainer | src/network/mod.rs:455-495 | a connected container keeps its endpoint; another gets the least free address; success iff the network is found and the container is connected or an address is free; each refusal has its cause and changes nothing |
| Networks.NetworkStore.DisconnectContainer | src/network/mod.rs:498-527 | the endpoint under the id goes, or else one of that container name; an error iff the network is not found or there is no such endpoint |
| Networks.UpdateMeaning | src/network/mod.rs:394-411 | an update changes the servers and labels of one record alone: a server is there iff it was or was added, and was not dropped; dropped labels are gone |
| Networks.ServersStayInOrder | src/network/mod.rs:394-401 | added servers come behind those there, and none comes twice |
| Networks.LabelText | src/network/mod.rs:402-408 | a label's text is cut at its first equals sign; without one it is all key |
| Networks.StepKeepsSettings | src/network/mod.rs:317-527 | whatever is done short of an update, a record that stays keeps all its settings |
| Networks.ServersMeaning | src/network/mod.rs:394-401 | after an update the servers are those there or added and not dropped |
| Networks.LabelsMeaning | src/network/mod.rs:402-411 | after an update each label has the value added last, or else the one it had, and dropped ones are gone |
| Networks.StepKeepsConsistent | src/network/mod.rs:317-527 | every operation, successful or not, keeps the store consistent |
| Networks.EveryRunIsConsistent | src/network/mod.rs:249-527 | over every run names are distinct, and in each network endpoints have distinct IPs and MACs, strictly inside the subnet and off the gateway |
| Networks.StepKeepsApartIff | src/network/mod.rs:317-527 | an operation of any kind keeps subnets apart iff it adds a network with a subnet that no other has, or none |
| Networks.DefaultSubnetIsFreshIff | src/network/mod.rs:345-350 | a network created with the default subnet shares it iff another has the subnet that the number of networks gives |
| Networks.EveryRunApartIff | src/network/mod.rs:317-527 | in every run, removals and given subnets included, subnets are apart throughout iff no operation adds one that is there |
| Networks.DefaultSubnetsStayApart | src/network/mod.rs:345-350 | in every run without removals and given subnets no two networks share a subnet, and each has one while there are at most 227 |
| Networks.RemovalRepeatsSubnet | src/network/mod.rs:345-350 | a run in which a removal makes two networks share their default subnet |
| Networks.DisconnectMeaning | src/network/mod.rs:498-527 | exactly one endpoint goes, under that id or of a container of that name, and none is left under the id |
| Networks.DisconnectUndoesConnect | src/network/mod.rs:454-527 | disconnecting a newly connected container restores the store |
| Networks.NameSurvivesIff | src/network/mod.rs:423-447 | after a removal call, forced or not, the record that alone has a name is gone iff the call is allowed and the query finds it first |
| Networks.DefaultNetworkSurvivesIff | src/network/mod.rs:423-447 | the same for the default network, wherever its record is and whatever it holds |
| Networks.FirstDefaultNetworkSurvivesIff | src/network/mod.rs:423-447 | a leading default network is spared iff the query is empty, its name or no prefix of its id, or it has endpoints and force is not set |
| Networks.PrefixRemovesDefaultNetwork | src/network/mod.rs:423-447 | a prefix of its id removes an unused default network without force |
| Text.TextLeqMeaning | src/runtime/diff.rs:64 | texts are ordered by the smaller code point at their first difference |
| FsDiff.PathTextInjective | src/runtime/diff.rs:101-102 | different paths have different texts, so comparing texts compares paths |
| DiffTheorems.PathTextConcat | src/runtime/diff.rs:101-102 | the text of a path has a slash before every component |
| FsDiff.FilesystemDiff.WalkAndCompare | src/runtime/diff.rs:68-160 | the recursive walk appends its records and remembers its paths, for any order of directory entries |
| FsDiff.FilesystemDiff.CheckDeletedFromBase | src/runtime/diff.rs:162-196 | the second walk adds its records to those there, for any order of directory entries |
| FsDiff.Compare | src/runtime/diff.rs:33-66 | both walks and the sort, with an error iff a root is missing or no directory |
| DiffTheorems.WalkRecordsExactly | src/runtime/diff.rs:75-158 | the walk records exactly what each reached path asks for, whiteout markers included |
| DiffTheorems.CheckRecordsExactly | src/runtime/diff.rs:169-194 | the check adds exactly the deletions of base paths the container lacks |
| DiffTheorems.ComparisonExactly | src/runtime/diff.rs:33-66 | the records of a comparison are these two sets together |
| DiffTheorems.RecordsMeaning | src/runtime/diff.rs:101-189 | without whiteout markers: added iff only in the container, changed iff in both and not files of one time and content nor directories of one time and length, deleted iff only in the base, outside the skipped names |
| DiffTheorems.UnrecordedIffAlike | src/runtime/diff.rs:123-152 | a path on both sides has no record iff both are files of one time and content, or directories of one time and length |
| DiffTheorems.UnrecordedFilesKeepBytes | src/runtime/diff.rs:123-152 | a file of the container has the bytes of the base unless it is recorded as added or changed |
| DiffTheorems.SelfComparison | src/runtime/diff.rs:33-66 | a tree compared with itself gives no record iff the walk meets no whiteout marker in it |
| DiffTheorems.MarkerMeansDeleted | src/runtime/diff.rs:104-115 | a marker that is reached is recorded as the deletion of the path it hides |
| DiffTheorems.RootEntriesReported | src/runtime/diff.rs:80-99 | at the root, all but the named mount points and scaffolding is reported as added, and all but the mount points as deleted |
| DiffTheorems.DiffReconstructsContainer | src/runtime/diff.rs:32-66 | base paths without the deleted and with the added ones are the container's paths |
| DiffTheorems.ComparisonSortedAndDistinct | src/runtime/diff.rs:64-189 | the result is sorted by path, and names no path twice iff no whiteout marker stands beside an entry of the name it hides that is recorded as well |
| DiffTheorems.PlainComparisonDistinct | src/runtime/diff.rs:64-189 | hence no path twice without whiteout markers |
| DiffTheorems.MarkerBesideAdded | src/runtime/diff.rs:104-125 | a marker beside an added entry of the name it hides: the path is named twice |
| Reference.ParsedIsNormal | src/oci/reference.rs:20-101 | the shape of every parsed reference |
| Reference.CanonicalRoundTrip | src/oci/reference.rs:20-107 | the canonical name of a parsed reference parses back to it, less the digest, iff its tag does not end in white space |
| Reference.SpaceBeforeDigestIsLost | src/oci/reference.rs:20-107 | inputs on which it does not: x:t with a space before the digest |
| Reference.SpaceFreeCanonicalRoundTrip | src/oci/reference.rs:20-107 | hence for every input without white space |
| Reference.DisplayRoundTrip | src/oci/reference.rs:110-118 | the display name parses back iff it is faithful, a condition on repository and tag |
| Reference.NestedLibraryImageIsLost | src/oci/reference.rs:110-118 | inputs on which it does not: images with a path below `library/` |
| Reference.SpellingsAgree | src/oci/reference.rs:34-119 | x:t, library/x:t, docker.io/x:t and index.docker.io/library/x:t are one reference, displayed as x:t |
| Reference.FirstComponentDecides | src/oci/reference.rs:57-99 | the first component is Docker Hub for its three names, a registry iff it has a dot or a colon or is `localhost`, and else part of the repository |
| Reference.NameAlone | src/oci/reference.rs:48-99 | a single name is the latest of an official image |
| Reference.DigestIsKept | src/oci/reference.rs:26-32 | a digest changes nothing but the digest |
| Reference.PortIsNoTag | src/oci/reference.rs:34-55 | a colon in the registry is a port and not a tag |
| Base64.Encode | src/auth/mod.rs:12-34 | the encoding, which decodes to the input |
| Base64.ChunkIsFourDigits | src/auth/mod.rs:15-31 | a chunk is a number of 24 bits written with four digits of six, padded with equals signs |
| Base64.AlphabetMeaning | src/auth/mod.rs:10 | capitals, small letters, digits, plus and slash stand for 0 to 63, nothing else for anything |
| Base64.EncodedConcat | src/auth/mod.rs:15 | whole groups of three bytes are encoded by themselves |
| Base64.EncodedLength | src/auth/mod.rs:14 | the output has four characters for every three bytes begun |
| Base64.FillTable | src/auth/mod.rs:37-40 | the filled table gives each character its position in the alphabet and 255 to all others |
| Base64.Decode | src/auth/mod.rs:36-64 | the decoder on any input; it gives a result iff, padding and white space apart, no single character is left over and the first two of every four are in the alphabet |
| Base64.PaddingIgnored | src/auth/mod.rs:41-44 | equals signs and the five kinds of ASCII white space make no difference, wherever they stand |
| Base64.ChunkMeaning | src/auth/mod.rs:46-62 | the bytes of four characters, also when the third or fourth is not in the alphabet |
| Base64.RoundTrip | src/auth/mod.rs:12-64 | decoding the encoding gives back every byte string, tails of one and two bytes included |
| Base64.EncodedInjective | src/auth/mod.rs:12-34 | different byte strings have different encodings |
| Utf8.Utf8RoundTrip | src/auth/mod.rs:151 | every text comes back from its bytes |
| Utf8.OnlyEncodingsAccepted | src/auth/mod.rs:151 | only the bytes of a text are read as one: overlong forms, surrogates and stray bytes are not |
| Credentials.CredentialStore.Login | src/auth/mod.rs:126-135 | the entry of the normalized server is replaced |
| Credentials.CredentialStore.Logout | src/auth/mod.rs:137-143 | the entry of the normalized server goes |
| Credentials.CredentialStore.GetCredentials | src/auth/mod.rs:145-180 | the own entry if it can be read, or else that of the Docker client |
| Credentials.LoginThenGet | src/auth/mod.rs:107-157 | after a login every spelling of the server finds an entry, the pair given iff the user name has no colon |
| Credentials.ColonInUserName | src/auth/mod.rs:126-157 | what is behind the first colon of a user name comes back as part of the secret |
| Credentials.ServerSpellings | src/auth/mod.rs:107-124 | a scheme in front or a slash behind makes no difference to a server |
| Credentials.BlanksAroundServer | src/auth/mod.rs:107-112 | neither does white space around it |
| Credentials.SchemeBehindScheme | src/auth/mod.rs:108-112 | the schemes are taken off in their order, each as often as it comes |
| Credentials.HubIsOneServer | src/auth/mod.rs:114-123 | the names of Docker Hub are one server, and any other plain name is itself |
| Credentials.HubLoginIsShared | src/auth/mod.rs:107-157 | a login under one name of Docker Hub is found under the others |
| Credentials.UnreadableEntryFallsBack | src/auth/mod.rs:145-180 | an own entry that cannot be read is passed over for that of the Docker client |
| Credentials.OtherServersUntouched | src/auth/mod.rs:126-157 | logging in or out of one server changes the answer for no other |
| Credentials.LogoutForgets | src/auth/mod.rs:137-177 | after a logout only the entry of the Docker client is left, whatever was stored before |
| KeyValue.ParseKeyValuePairs | src/builder/parser.rs:278-344 | the index scanner terminates on every line and computes the pairs of its text |
| KeyValue.PrintedPairsParseBack | src/builder/parser.rs:288-343 | any list of pairs with proper keys and arbitrary values, printed with either kind of quote and escapes, parses back to itself |
| KeyValue.ReprintedLineMeansTheSame | src/builder/parser.rs:278-344 | what a line means survives printing and parsing it again, iff it has an equals sign or does not start with white space |
| KeyValue.LeadingSpaceIsLost | src/builder/parser.rs:279-286 | lines on which it does not: white space, then a value without an equals sign |
| KeyValue.BarePairParsed | src/builder/parser.rs:300-337 | a value without quotes goes up to the next white space, with spaces around the equals sign or not |
| KeyValue.OldFormUnquotes | src/builder/parser.rs:279-286 | quotes around a value of the old form are no part of it |
| KeyValue.OldFormParsed | src/builder/parser.rs:279-286 | a key and an unquoted value without equals sign give one pair |
| LogRotation.LogFile.RotateIfNeeded | src/guardrails/mod.rs:46-78 | the descending renames on any set of backups, and whether a rotation was due |
| LogRotation.LogFile.Record | src/events/mod.rs:109-112 | rotate, then append |
| LogRotation.ShiftAt | src/guardrails/mod.rs:62-69 | which backup each number holds after the renames, gaps included |
| LogRotation.RunKeepsTheLastFiles | src/guardrails/mod.rs:46-78 | over every run the files are the active one and the last max_files closed ones of a log that loses nothing |
| LogRotation.KeptFilesAreSuffix | src/guardrails/mod.rs:46-78 | they are together a suffix of everything recorded, all of it while no more files were closed, numbered without gaps |
| LogRotation.AppendFindsRoom | src/events/mod.rs:109-112 | with a positive limit no append finds the active file at the limit |
| Ports.EnsureNoConflicts | src/guardrails/mod.rs:167-203 | refused iff a running container has a requested port: one protocol, one port other than zero, and one address or all addresses on either side; a refusal names a real clash |
| Ports.ContainerStore.RunContainer | src/lib.rs:1295-1296 | a container is recorded as running iff the check admits its ports, and a refusal changes nothing |
| Ports.EveryRunIsExclusive | src/lib.rs:1295-1296 | over every run without start, unpause or restore no two running containers claim the same address, non-zero port and protocol |
| Ports.StartKeepsExclusiveIff | src/lib.rs:2034 | setting a container running keeps ports exclusive iff the check on the others would have admitted it |
| Ports.StartTakesPortTwice | src/lib.rs:2034 | a stopped container whose port another one has taken: its start breaks the rule |
| Environment.NewDefaultEnv | src/oci/runtime.rs:234-253 | the retain-and-push loops keep the last entry of each key of defaults, image and overrides |
| Environment.KeyMeaning | src/oci/runtime.rs:242 | the key of an entry is what stands before its first equals sign |
| Environment.LaterLayersWin | src/oci/runtime.rs:239-253 | an override wins over the image, and the image over the defaults |
| Environment.MergedEnvironment | src/oci/runtime.rs:239-253 | every key appears exactly once with its last value |
| Environment.PositionsAscend | src/oci/runtime.rs:239-253 | the kept entries are in the order of their last occurrences |
| Environment.KeepLastPositions | src/oci/runtime.rs:239-253 | the kept entries are those at these positions |
| CopyPath.ResolveContainerPath | src/runtime/cp.rs:11-35 | the root extended by the normalized component stack, or an error iff some prefix of the text's pieces has more double dots than names |
| CopyPath.BelowRootIsGreater | src/runtime/cp.rs:18 | the comparison of paths asks whether anything was pushed |
| CopyPath.EscapesIffSomePrefixDoes | src/runtime/cp.rs:14-35 | it fails iff some prefix of the components has more parent steps than names |
| CopyPath.TextEscapesIff | src/runtime/cp.rs:12-35 | a text is refused iff some prefix of its pieces between slashes has more double dots than names |
| CopyPath.TextIsRead | src/runtime/cp.rs:12-16 | the pieces of a text are read as names and parent steps in their order, empty ones and dots as nothing |
| CopyPath.JoinedPiecesAreRead | src/runtime/cp.rs:12-16 | any names and double dots joined with slashes, with empty pieces and dots between, are read back as they are |
| CopyPath.ParentUndoesNameInText | src/runtime/cp.rs:16-19 | a name and the two dots after it cancel anywhere in a text |
| CopyPath.ParentUndoesName | src/runtime/cp.rs:16-19 | a name and the parent step after it cancel anywhere |
| CopyPath.PlainPathResolves | src/runtime/cp.rs:12-16 | a path of plain names, with any slashes in front, resolves to these names |

## Left out

- Layers: gzip, tar headers, permissions, owners, symbolic and hard links; an entry is its path and a directory or a file with content. The tar library is not part of the repository: unpacking over a node of the same kind replaces a file and keeps a directory, and a change of kind fails and is ignored.
- Overlay.UnpackIsOverlayIffWellFormed: the overlay takes a whiteout with an empty name or a single dot to hide nothing, since the specification gives it no meaning; a removal of the root directory itself is modelled as clearing it.
- Addresses, Networks: the texts of addresses and subnets; a record holds what its text parses to, or None. The random id, the clock and the Unicode letter test are parameters or dropped; the locked index file is the field of the store.
- Networks.EveryRunIsConsistent: each network by itself; given subnets of two networks may overlap without being equal, which nothing in the code prevents.
- FsDiff: symbolic links, names that are not Unicode, and read errors.
- Base64: the bit operations on bytes are the number operators of `Bits`.
- LogRotation: renames and writes succeed; the text of an event is any byte string.
- CopyPath.ResolveContainerPath: the canonicalization checks after the first loop, which have nothing to find without symbolic links.
- Ports: the parsing of port specifications and ranges is not modelled.
- Glob: reading the `.dockerignore` file.
- Registry client, daemon, command line, processes, cgroups, build cache and executor, health checks and restart policies, volumes, pods, size and duration suffixes: not modelled.
