# muse-kv in Dafny

muse-kv is a distributed in-memory key-value store. Values are strings, lists, sets and field
maps; every entry carries a read and a write authority and may carry a deadline. A table can be
saved to a file that is encrypted byte by byte with textbook RSA (RSAEP and RSADP, section 5.1 of
RFC 8017), and a cluster of nodes shares the 10007 hash slots of the table.

This project models the store from the byte cipher up to the cluster and proves what it keeps.

* **Cipher and text** (`NumberTheory`, `Cipher`, `StringCipher`, `Text`, `MachineInts`): the key
  search and exponentiation loops in 64-bit arithmetic, decimal printing and parsing, split, merge
  and trim.
* **Containers** (`LinkedList`, `Hashing`, `HashSet` over `SetBuckets`, `FieldMap` over
  `FieldPairs`): classes over linked nodes that refine sequences, sets and maps.
* **Table** (`Entries`, `Values`, `Store`, `Table`): the chained main table as a class whose nodes
  own containers on the heap, refining the chains of records of `Store`, which refine a map.
* **Snapshot** (`Snapshot`, `SnapshotLaws`, `SnapshotMaps`): the file format, what survives it, and
  what reading does to a table that is not empty.
* **Commands** (`Machine`, `Sorting`, `Commands`): the command machine as a step function, and the
  class `Command`, whose methods run on the heap table and are proved equal to the steps.
* **Laws** (`EntryLaws`, `ValueLaws`, `CommandNames`, `HashLaws`, `NumberLaws`): each command told
  from outside, by its reply and by what look-ups yield afterwards; how commands are written; hashes
  and numbers in closed form.
* **Runs** (`Safety`, `SafeReads`, `AnyRun`, `Secrecy`, `Replay`, `CleanRuns`): authority, expiry,
  non-interference, log replay and the texts a table can hold, over whole histories of steps.
* **Cluster** (`SlotRanges`, `Routing`, `Redirects`, `OneHop`, `PlainReplies`, `ClusterTable`,
  `ForwardedLog`, `ServerLog`): the two range builders, the request handling of a node as a class
  over its table, one-hop routing, which replies go astray, the theorem that a cluster of any size
  behaves like one table, and exactly when the log of a node rebuilds its table.

Strings are sequences of characters; the cipher and snapshot theorems speak about characters below
256. Time is a parameter, a file is the sequence of its whitespace-separated words, and random draws
are given as a sequence. Signed overflow in the hash functions, in strtoint and in the negation of a
list index is 32-bit wrap-around.

Seven results contradict what a reader would expect of the code, and are proved as such:

* A field map that is empty does survive a snapshot, while an empty list or set comes back holding
  the text "(empty)"; a string is cut at its first comma (`SnapshotLaws.ValueSurvives`).
* The log of Write-classified commands rebuilds the table exactly as long as no other command meets
  an expired entry, because such a command drops the entry without being logged
  (`Replay.LogReplaysExactly`, `Replay.ExpireBreaksReplay`).
* A node classifies a forwarded line with its tag still on, so the owner's log misses most forwarded
  writes (`ForwardedLog.ForwardedIsLogged`, `ServerLog.ServerLogReplays`).
* A number behind a backspace replaces the authority of the connection for any request, not only for
  those of other nodes (`OneHop.ConnectionAuthority`, `OneHop.TagDecides`), and read asks for no
  authority at all (`AnyRun.ReadNeedsNoAuthority`).
* Reading a snapshot can leave an entry whose read authority is above its write authority, but only
  where one line alone sets an absent key so (`SafeReads.ReadKeepsOrder`).
* The cluster builder reads a cluster size of 12 as 2: its loop over the first configuration line
  keeps the last digit position with a non-zero number (`SlotRanges.SizeReadRight`).
* A reply that contains the word "hashval" is taken for a redirection by the node that owns the key,
  so a stored text with that word cannot be read back, and a request for a missing key with that
  word in its name is not refused (`OneHop.OwnerActs`, `OneHop.StoredTextIsRedirected`,
  `OneHop.MissingKeyIsRedirected`). Keeping the word out of commands and values is enough
  (`OneHop.ReplyIsPlain`, `ClusterTable.ClusterServes`); the exact condition is
  `PlainReplies.ReplyIsPlainExactly`.

Where comment and code differ the model follows the code: the reader announces a check of the type
code, but its condition can never hold (`src/hash.cpp:283-292`), so a code outside 0..3 gets through.

## Model

| member | source | states |
|---|---|---|
| Cipher.TrialDivision | src/encrypt.cpp:42-56 | the first trial-division loop, with divisors up to the integer square root, accepts every p >= 2 exactly when p is prime |
| NumberTheory.GcdIsGreatest | src/encrypt.h:31-36 | the recursion terminates and yields the true greatest common divisor: a common divisor that every common divisor divides |
| NumberTheory.Bezout | src/encrypt.h:31-36 | the result of the recursion is an integer combination of its arguments |
| Cipher.GetEncryptKey | src/encrypt.cpp:79-87 | the accepted key is the first draw that is coprime to P once reduced below it; the search comes back empty only when no draw is |
| Cipher.InverseExists | src/encrypt.cpp:90-99 | a decryption key below P exists exactly when the encryption key is coprime to P |
| Cipher.GetDecryptKey | src/encrypt.cpp:90-99 | the least inverse in [1, P), or -1 exactly when the key is not coprime to P >= 2; the 64-bit product never wraps |
| Cipher.KeyGenerator | src/encrypt.h:47-62 | for any two distinct primes with 255 < p*q < 2^31 an accepted encryption key always has its inverse, so the retry branch is dead, and every byte survives encrypt and decrypt |
| Cipher.ModExpIsPower | src/encrypt.cpp:102-110 | no intermediate product of the loop exceeds 64 bits, so it computes the power modulo N |
| Cipher.Encrypt | src/encrypt.cpp:102-110 | the loop computes the specified exponentiation, wrap-around of uint64_t included |
| Cipher.Decrypt | src/encrypt.cpp:121-128 | the same exponentiation narrowed to one byte |
| Cipher.CipherRoundTrip | src/encrypt.cpp:102-128 | for every key pair and byte m: decrypt undoes encrypt exactly when m is below the modulus, so for every byte once 255 < p*q; multiples of p and q included |
| Cipher.CipherInverse | src/encrypt.cpp:102-128 | decrypting an encrypted number of any size below 2^31 yields it modulo p*q, although all arithmetic is in 64 bits |
| Cipher.SnapshotKey | src/hash.cpp:236-236 | the modulus 1483513 in save is 1021 * 1453, both prime, and 409 inverts the exponent 28969: it is the password of every snapshot |
| StringCipher.EncryptString | src/encrypt.cpp:112-118 | the text is the decimal code of every byte, each closed by a backslash |
| StringCipher.DecodeLine | src/hash.cpp:259-272 | splitting, parsing, decrypting into a buffer and reading it back as a C string; stops at the first piece that is no number or is empty |
| StringCipher.DecryptString | src/encrypt.cpp:131-151 | the decoded text, or the CRACKED message exactly when a piece is not a number |
| StringCipher.DecodesExactly | src/hash.cpp:259-272 | decoding succeeds exactly when every piece is a number, each then giving one byte; else the first bad piece decides between the exception and the refusal |
| StringCipher.TextRoundTrip | src/encrypt.cpp:112-151 | decrypt_string gives back the part of a byte string before its first NUL, hence the string itself exactly when it is NUL-free |
| Text.Split | src/kvstore.cpp:67-93 | fills exactly the array it sized by counting separators with the pieces between them; nothing for the empty string |
| Text.Merge | src/kvstore.cpp:96-108 | the pieces joined by the separator |
| Text.MergeUndoesSplit | src/kvstore.cpp:67-108 | merging the pieces of a split yields the string again, for every string and separator |
| Text.SplitUndoesMerge | src/kvstore.cpp:67-108 | splitting a merge yields the pieces exactly when none contains the separator and the list is not the one empty string |
| Text.Trim | src/kvstore.cpp:111-135 | stripping both ends and the erase-and-step-back loop terminate with the words of the text joined by single spaces |
| Text.WordsAreRuns | src/kvstore.cpp:111-135 | the words are exactly the maximal space-free runs of the text, in reading order, none missed |
| Text.TokensAreWords | src/command.h:68-69 | splitting the trimmed line at spaces yields exactly these words, for every line |
| Text.TrimIsIdempotent | src/kvstore.cpp:111-135 | trimming a trimmed text changes nothing |
| Text.StrToInt | src/kvstore.cpp:138-154 | accepts an optional minus sign and digits only, with the accumulator in 32-bit arithmetic |
| Text.PrintedIntReadsBack | src/kvstore.cpp:138-154 | strtoint inverts decimal printing for every n with |n| < 2^31, no step overflowing |
| Text.NumberTexts | src/kvstore.cpp:138-154 | accepted are exactly the texts of digits with at most a minus sign in front |
| NumberLaws.NumberLaw | src/kvstore.cpp:138-154 | the value of any number of digits is their decimal value taken into the range of an int once, although every step wraps |
| LinkedList.PositionIsEuclidean | src/linkedlist.cpp:186-191 | the walk ends at the index modulo length in the Euclidean sense for every int but the least; for -2^31, whose negation wraps around to itself, it takes no step, which is right exactly when the length divides 2^31 |
| LinkedList.List.PushFront | src/linkedlist.cpp:45-68 | one ring of distinct nodes, prev inverse to next, with the element in front |
| LinkedList.List.PushBack | src/linkedlist.cpp:71-92 | the ring with the element at the end |
| LinkedList.List.PopFront | src/linkedlist.cpp:95-123 | removes and returns the first element; empty text on an empty list |
| LinkedList.List.PopBack | src/linkedlist.cpp:126-153 | removes and returns the last element |
| LinkedList.List.Find | src/linkedlist.cpp:156-176 | the first position of the content, or -1 exactly when it is absent |
| LinkedList.List.At | src/linkedlist.cpp:179-194 | the node where the walk ends, the overflow of -index for the least int included; null exactly on the empty list |
| LinkedList.List.Get | src/linkedlist.h:55-58 | the element where that walk ends |
| LinkedList.List.Set | src/linkedlist.h:59-62 | replaces the element where that walk ends and nothing else |
| LinkedList.List.Del | src/linkedlist.cpp:197-220 | removes the element where that walk ends; false exactly on the empty list |
| LinkedList.List.Print | src/linkedlist.cpp:223-235 | the elements from the head on, joined by commas |
| Hashing.TableHash | src/hash.cpp:90-111 | a slot in 0..10006 determined by the key, all 32-bit wrap-around and the negative remainder included |
| Hashing.SetHash | src/hashset.cpp:47-64 | a bucket in 0..96, likewise |
| HashLaws.SlotLaw | src/hash.cpp:90-111 | the slot in closed form: the sum of the characters less 64 times 53 to the powers of two, unbounded and wrapped once, through the three shift rounds, modulo 10007 |
| HashLaws.BucketLaw | src/hashset.cpp:47-64 | the bucket likewise: characters less 96, modulo 97 |
| HashLaws.XorByBits | src/hash.cpp:98-103 | exclusive or bit by bit |
| Hashing.TruncRemFix | src/hash.cpp:107-108 | the correction of a negative remainder yields the Euclidean remainder |
| HashSet.Hashset.Push | src/hashset.cpp:67-73 | the bucket lists become those of the specified insertion, every element in its hash bucket and only once |
| HashSet.Hashset.Pop | src/hashset.cpp:76-87 | the last element of the first non-empty bucket is removed and returned |
| HashSet.Hashset.Del | src/hashset.cpp:90-102 | the scan over all buckets finds the element in its own bucket; true exactly on members |
| HashSet.Hashset.GetLength | src/hashset.cpp:105-112 | the cardinality of the set |
| HashSet.Hashset.Print | src/hashset.cpp:115-136 | all elements bucket by bucket, joined by single commas |
| SetBuckets.PushInserts | src/hashset.cpp:67-73 | push refines set insertion |
| SetBuckets.PopChooses | src/hashset.cpp:76-87 | pop refines the choice and removal of a member, and answers the empty text on the empty set |
| SetBuckets.EraseRemoves | src/hashset.cpp:90-102 | del refines set removal and reports membership |
| SetBuckets.FlatEnumerates | src/hashset.cpp:105-136 | the printed enumeration lists each member exactly once |
| SetBuckets.BucketByBucket | src/hashset.cpp:115-136 | and bucket by bucket |
| FieldMap.Hashmap.FindNode | src/hashmap.cpp:71-80 | the node of the field; on a miss the index stays as the caller set it, so all nodes end up in bucket 0 |
| FieldMap.Hashmap.SetFv | src/hashmap.cpp:137-152 | changes the value of a field that is there or links a new pair in front of the chain of bucket 0 |
| FieldMap.Hashmap.DelFv | src/hashmap.cpp:154-162 | unlinks the node of the field, the order of the others unchanged |
| FieldMap.Hashmap.GetV | src/hashmap.cpp:116-121 | the value of the field, or the text NULL |
| FieldMap.Hashmap.Fields | src/hashmap.cpp:88-99 | the fields are correctly joined by commas although none is put between two buckets |
| FieldMap.Hashmap.Values | src/hashmap.cpp:102-113 | the values in the order of the fields, correctly joined |
| FieldMap.Hashmap.Fvs | src/hashmap.cpp:124-135 | fields and values alternating, correctly joined |
| FieldPairs.PutUpdates | src/hashmap.cpp:137-152 | set_fv refines map update |
| FieldPairs.CutRemoves | src/hashmap.cpp:154-162 | del_fv refines map removal |
| FieldPairs.MapCount | src/hashmap.cpp:82-85 | the size counter is the cardinality of the map |
| Entries.SettersKeepOrder | src/kvstore.h:117-126 | whichever setter runs, the read authority does not exceed the write authority; overwriting does not touch the deadline |
| Entries.EncodeOk | src/command.cpp:31-100 | every encoded container meets the invariants of its class, whatever the text |
| Values.DataEncode | src/command.cpp:31-100 | a freshly allocated valid container with the specified contents |
| Values.DataDecode | src/command.cpp:103-148 | the printed value; (empty) for containers that print as nothing |
| Table.KeyValue.SetAuthr | src/kvstore.h:117-121 | sets the read authority and raises the write authority if it is below |
| Table.KeyValue.SetAuthw | src/kvstore.h:122-126 | sets the write authority and lowers the read authority if it is above |
| Table.KeyValue.TtlLeft | src/kvstore.h:104-111 | -1 without deadline, 0 and the finished mark once expired, else the seconds left |
| Table.HashNode.GetKvStr | src/hashnode.cpp:137-154 | the snapshot record of the node: type, write authority, read authority, key, printed value |
| Table.Hash.FindNode | src/hash.cpp:114-126 | the node of the key in the chain of its slot, null exactly when the key is not in the table |
| Table.Hash.Set | src/hash.cpp:128-159 | on the heap: chains, counters, containers and links stay consistent, an existing entry is overwritten in place with its deadline kept, a new node is linked in front; nothing but nodes, arrays and the new value is touched |
| Table.Hash.Del | src/hash.cpp:173-184 | on the heap: the node is bypassed in both directions, the counter decremented, every other entry and container untouched |
| Table.Hash.Keys | src/hash.cpp:187-202 | the array sized by the counters is filled exactly, slot by slot, each chain from its front |
| Table.Hash.GetSize | src/hash.cpp:325-329 | the counters add up to the number of keys |
| Table.Hash.SetBoundary | src/hash.cpp:84-87 | changes the slot range and nothing else |
| Table.Hash.Save | src/hash.cpp:225-243 | one encrypted line per record, in chain order, or the refusal when the file cannot be opened |
| Table.Hash.RecordsAreProper | src/hash.cpp:128-159 | every valid heap table stands for a well-formed table of proper containers, which the snapshot theorems ask for |
| Table.ParseFields | src/hash.cpp:276-317 | a decrypted record taken apart, or the reason it is refused, with authorities narrowed to a byte |
| Table.Hash.Read | src/hash.cpp:246-323 | sets record after record, stops at the end of the file or at the first bad line, and keeps what it has set by then |
| Store.ReplacedRefines | src/hash.cpp:150-158 | overwriting refines map update and keeps every key once, in the chain of its own hash |
| Store.InsertedRefines | src/hash.cpp:134-149 | linking in front refines adding a key to a map |
| Store.DroppedRefines | src/hash.cpp:173-184 | del refines removing a key from a map |
| Store.AssignedRefines | src/hash.cpp:128-159 | set changes the entry of its key only, and how |
| Store.KeysEnumerate | src/hash.cpp:187-202 | keys lists every key of the table exactly once |
| SnapshotLaws.RecordParses | src/hash.cpp:276-317 | the reader finds the fields of every record with a comma-free key again; a string value is cut at its first comma |
| SnapshotLaws.RecordForm | src/hashnode.cpp:137-154 | a record is type digit, write authority, read authority, key and printed value, with commas between |
| SnapshotLaws.NarrowedParse | src/hash.cpp:276-317 | whatever numbers a line has for authorities, they are read in this order and narrowed to the byte of the same residue |
| SnapshotLaws.LinesHaveNoBlank | src/hash.cpp:255-257 | a line contains no whitespace, so the reads of the file see each line whole |
| SnapshotLaws.ValueSurvives | src/hash.cpp:298-317 | a value keeps its meaning through a snapshot exactly when none of its pieces contains a comma and, for a list or set, it does not print as the empty text |
| SnapshotLaws.RecordSurvives | src/hash.cpp:225-323 | key, authorities and meaning come back from a line exactly when the key contains no comma and the value is storable, for every password that inverts the key |
| SnapshotLaws.ReadUndoesSave | src/hash.cpp:225-323 | reading the file of any storable table into an empty one succeeds and yields every chain and every field map reversed, lists and set buckets in order |
| SnapshotLaws.MirrorSameMap | src/hash.cpp:225-323 | that table is the same map from key to type, meaning and authorities |
| SnapshotMaps.RecordIsAccepted | src/hash.cpp:276-317 | every line save writes is accepted with the authorities of its record; a key with a comma is cut, so none that is read contains one |
| SnapshotMaps.TableSurvives | src/hash.cpp:225-323 | reading a table's file into an empty table always succeeds, and yields the same map exactly when the table is storable |
| CleanRuns.StepClean | src/command.cpp:151-950 | any command made of NUL-free bytes keeps every key and value NUL-free bytes, every container in order and both authorities in 0..255, read of any file with any password included |
| CleanRuns.RunKeepsClean | src/command.cpp:151-950 | so does any run of command lines |
| CleanRuns.ReachedTableSurvives | src/hash.cpp:225-323 | for every table a run of such lines reaches from the empty one: reading its file back succeeds, and yields the same map exactly when the table is storable |
| CleanRuns.DecodedIsClean | src/hash.cpp:259-272 | what a snapshot line decrypts to is NUL-free bytes, whatever line and password |
| CleanRuns.EncodeClean | src/command.cpp:31-100 | every encoded container holds pieces of the text only and is in order |
| SnapshotMaps.RestoreOverrides | src/hash.cpp:225-323 | reading the file of a storable table into any table overrides the entries under its keys, present ones keeping their deadlines, and leaves all others alone |
| SnapshotLaws.ThirdFileIsFirst | src/hash.cpp:225-323 | save, read, save, read, save writes the first file again, for every storable table |
| Commands.Command.Get | src/command.cpp:151-169 | on the heap: the printed value of a live entry the caller may read |
| Commands.Command.Make | src/command.cpp:171-222 | on the heap: creation with optional authorities: every refusal in its order, otherwise the assigned entry |
| Commands.Command.Del | src/command.cpp:224-237 | on the heap: removal by a caller with write authority, expired or not |
| Commands.Command.Keys | src/command.cpp:239-263 | on the heap: exactly the keys the caller may read, each once, expired ones included |
| Commands.Command.LMake | src/command.cpp:265-283 | on the heap: the list of the joined arguments split at commas again; answers the number of arguments |
| Commands.Command.LPush | src/command.cpp:285-312 | on the heap: the arguments arrive in front one by one, so in reverse order |
| Commands.Command.RPush | src/command.cpp:314-341 | on the heap: the arguments are appended in order |
| Commands.Command.LPop | src/command.cpp:343-372 | on the heap: the first element leaves; only the write authority is checked |
| Commands.Command.RPop | src/command.cpp:374-403 | on the heap: the last element leaves |
| Commands.Command.LGet | src/command.cpp:405-432 | on the heap: the element a signed index denotes |
| Commands.Command.LSet | src/command.cpp:434-462 | on the heap: that element replaced |
| Commands.Command.LErase | src/command.cpp:464-496 | on the heap: that element removed |
| Commands.Command.SMake | src/command.cpp:498-518 | on the heap: the set of the joined arguments; answers its cardinality |
| Commands.Command.SPush | src/command.cpp:520-549 | on the heap: all arguments inserted |
| Commands.Command.SPop | src/command.cpp:551-580 | on the heap: a member leaves |
| Commands.Command.SErase | src/command.cpp:582-614 | on the heap: the member leaves, or the table stays and the element is named |
| Commands.Command.Sort | src/command.cpp:616-651 | on the heap: the printed pieces in order; the table is not changed |
| Commands.Command.HMake | src/command.cpp:654-675 | on the heap: the field map of the alternating arguments; an odd number is refused |
| Commands.Command.HPush | src/command.cpp:677-703 | on the heap: one field set |
| Commands.Command.HGet | src/command.cpp:705-736 | on the heap: the value of a field, with the text NULL taken for a missing field |
| Commands.Command.HFields | src/command.cpp:738-765 | on the heap: the fields |
| Commands.Command.HVals | src/command.cpp:767-793 | on the heap: the values in the same order |
| Commands.Command.HErase | src/command.cpp:795-833 | on the heap: one field removed, or the table stays |
| Commands.Command.AuthR | src/command.cpp:835-857 | on the heap: the read authority set by a caller who has both the old write authority and the new level |
| Commands.Command.AuthW | src/command.cpp:859-881 | on the heap: the write authority, likewise |
| Commands.Command.Expire | src/command.cpp:883-911 | on the heap: a deadline set on a live entry; an expired one is dropped instead |
| Commands.Command.GetTtl | src/command.cpp:913-933 | on the heap: the remaining seconds, the table left alone but for an expired entry |
| Commands.Command.Save | src/command.cpp:936-942 | on the heap: the file holds one line per record; NO FILE when it cannot be opened |
| Commands.Command.Read | src/command.cpp:944-950 | on the heap: the table after reading the file with the given password |
| Commands.FindLive | src/command.cpp:153-163 | the look-up most commands start with: an expired entry is dropped from the heap table and counts as missing |
| Commands.Command.Execute | src/command.h:66-137 | for every command line, authority, time and slot range the heap execution has the reply and the table of the step machine; a file is written exactly by save |
| Commands.Command.TypeOf | src/command.h:140-188 | the class of the line |
| CommandNames.WrittenParses | src/command.h:96-131 | every command with the right number of arguments is recognised by its name |
| CommandNames.ParsedIsWritten | src/command.h:96-134 | nothing else is: what is recognised is written that way, or is xkeys or xsave |
| CommandNames.LineRuns | src/command.h:66-137 | a command typed as a line runs on the node that owns the slot of its second word, and is turned away with that slot on any other |
| CommandNames.SetupRuns | src/command.h:73-86 | a line that begins with one of the seven set-up verbs is answered with the verb behind the magic, and the empty line refused, the table unchanged |
| Sorting.SortedOrders | src/command.cpp:646-647 | the sorted pieces are an ordered permutation |
| Sorting.OrderIsUnique | src/command.cpp:646-647 | the byte order is total, so there is only one ordered permutation, whatever algorithm the library uses |
| Safety.StepAllowed | src/command.cpp:151-933 | one command at level a changes only the entry it addresses, only if its write authority is at most a (apart from dropping an expired one), leaves both authorities at most a, and never revives an expired entry |
| SafeReads.ReadKeepsOrder | src/hash.cpp:246-323 | for any file, password and table in order: reading keeps every key in its chain and authr <= authw exactly when no absent key is set by one line alone whose read authority is above its write authority; a second line goes through the setters and restores the order |
| SafeReads.SavedFileIsSafe | src/hash.cpp:225-323 | a file that save wrote from a table in order keeps any table in order |
| SafeReads.ReadReplies | src/command.cpp:944-950 | read sets the lines before the first bad one; OK without one, the failure for a damaged one, ABORTED for an exception or an unknown type code; nothing happens without a file or a number |
| SafeReads.ForeignFileBreaksOrder | src/hash.cpp:292-320 | one line with its authorities the wrong way round breaks the order of every table without its key |
| SafeReads.StepKeepsOkExactly | src/command.cpp:151-950 | one command keeps the table invariant exactly when it is no read or a safe one |
| SafeReads.RunStaysOkExactly | src/command.cpp:151-950 | for every run, read included: in all states every key is once in its own chain, every entry has authr <= authw and none is marked finished, exactly when every read in it is safe |
| AnyRun.CommandKeeps | src/command.cpp:151-933 | every command but read, on any well-formed table: an expired entry is not revived, no entry is newly marked finished, and below its write authority an entry is only dropped once it has expired |
| AnyRun.HighEntriesStay | src/command.cpp:151-950 | over any run, reads included, from any well-formed table: an entry without deadline stays as it is until the first caller who has its write authority or the first read whose file sets its key |
| AnyRun.ReadNeedsNoAuthority | src/command.cpp:944-950 | read looks at no authority: at any level the file of a storable table overrides every entry under one of its keys |
| AnyRun.ExpiredStaysExpired | src/kvstore.h:97-116 | over any run of any commands, reads included, from any well-formed table and with a clock that does not go back: an expired entry is never revived, overwriting and reading included; a live entry under its key means the key was gone in between |
| AnyRun.NeverFinished | src/kvstore.h:104-111 | in no state of any run from a table without finished entries is an entry marked finished, reads included |
| AnyRun.LinesAge | src/hash.cpp:246-323 | reading drops no key, revives nothing, marks nothing finished and leaves every key alone that no line sets |
| Safety.TtlAnswers | src/command.cpp:913-933 | a granted ttl answers -1, or exactly the number of seconds after which the entry is expired, which is at least 1 |
| Entries.TtlIsDistance | src/kvstore.h:104-111 | -1 without a deadline; the distance to the expiry of a live entry; 0 for an expired one, which then stays expired at every time |
| EntryLaws.ExpireLaw | src/command.cpp:883-911 | every refusal of expire in its order, and else the deadline counted from now in the entry, nothing else changed |
| EntryLaws.TtlLaw | src/command.cpp:913-933 | every refusal of ttl in its order, and else the seconds left, the table unchanged |
| EntryLaws.ExpireThenTtl | src/command.cpp:883-933 | after a granted expire with m seconds at t, ttl at a later t' answers m - (t' - t) before t + m, and from then on the key is gone |
| EntryLaws.MakePlainLaw | src/command.cpp:171-185 | make without authorities: refused exactly below the write authority of the entry there; else the look-up yields the text with the authorities 0 and a and the old deadline or none, every other key unchanged |
| EntryLaws.MakeReadLaw | src/command.cpp:186-197 | make with a read authority x: refused for the entry there, for no level, for a level above the caller, in this order, the table unchanged; else authorities x and a |
| EntryLaws.MakeBothLaw | src/command.cpp:198-222 | make with both authorities: the five refusals in their order, the table unchanged; else authorities x and w |
| EntryLaws.MakeThenGet | src/command.cpp:151-222 | what is made under an absent key with read authority x is answered to a get at level b exactly when b >= x, and denied below |
| EntryLaws.LMakeLaw | src/command.cpp:265-283 | the stored list joined again is the joined arguments, and it is the arguments themselves unless one contains a comma; the number answered is that of the arguments |
| EntryLaws.SMakeLaw | src/command.cpp:498-518 | the stored set is the set of those pieces and its cardinality is answered |
| EntryLaws.HMakeLaw | src/command.cpp:654-675 | an odd number of arguments is refused first; else every second piece is stored under the one before, of equal ones the last |
| EntryLaws.DelLaw | src/command.cpp:224-237 | refused for an absent key and below the write authority; else the key is gone and all others stay |
| EntryLaws.AuthRLaw | src/command.cpp:835-857 | the refusals in their order; else the read authority is the level given and the write authority the old one or, if that was below, the level |
| EntryLaws.AuthWLaw | src/command.cpp:859-881 | likewise for the write authority, the read authority being lowered only if it was above |
| EntryLaws.KeysLaw | src/command.cpp:239-263 | keys answers exactly the keys whose read authority the caller has, each once, joined by commas |
| EntryLaws.KeysInSlotOrder | src/hash.cpp:187-202 | the keys are listed in the order of their slots |
| ValueLaws.RefusalLaw | src/command.cpp:151-833 | for the seventeen commands on a value: what turns them away and in which order, which authority each asks for and which type, and that only an expired entry is dropped |
| ValueLaws.GetLaw | src/command.cpp:151-169 | a text is answered as it is, a list or a set as its elements joined by commas, each once, a field map as its fields and values in turn, and (empty) for nothing |
| ValueLaws.LPushLaw | src/command.cpp:285-312 | after lpush the element i of the stored list is the argument i from the last, and behind them come the old elements |
| ValueLaws.LPushThenLGet | src/command.cpp:285-432 | lget i after a granted lpush answers the argument i from the last, and for later i what lget answered before at i less the number of arguments |
| ValueLaws.RPushLaw | src/command.cpp:314-341 | the old elements stay in place and the arguments follow in order |
| ValueLaws.LPopLaw | src/command.cpp:343-372 | the reply in front of the stored list is the list that was; an empty one is refused |
| ValueLaws.RPopLaw | src/command.cpp:374-403 | the stored list with the reply behind is the list that was |
| ValueLaws.LGetLaw | src/command.cpp:405-432 | the element at the index modulo the length; the head for the least int; the refusals in their order |
| ValueLaws.LSetLaw | src/command.cpp:434-462 | that element is the new one and every other stays |
| ValueLaws.LEraseLaw | src/command.cpp:464-496 | the stored list with that element put back in its place is the list that was |
| ValueLaws.SPushLaw | src/command.cpp:520-549 | the stored set is the union with the arguments |
| ValueLaws.SPopLaw | src/command.cpp:551-580 | the reply was a member, the last of the first bucket that is not empty, and the stored set is the rest |
| ValueLaws.SEraseLaw | src/command.cpp:582-614 | the stored set lacks the element; one that is no member is named in the refusal |
| ValueLaws.SortLaw | src/command.cpp:616-651 | the reply split at commas is in byte order and has the pieces of the printed value, each as often; the table stays |
| ValueLaws.ByteOrder | src/command.cpp:646-647 | the order: the first differing byte decides, and a text comes after its beginnings |
| ValueLaws.HPushLaw | src/command.cpp:677-703 | the stored map is the old one with the field set; a field that was there keeps its place, a new one comes first |
| ValueLaws.HGetLaw | src/command.cpp:705-736 | the value of the field in the map, unless it is missing or holds the text NULL |
| ValueLaws.HListLaw | src/command.cpp:738-793 | hfields and hvals answer the fields, each once, and their values in the same order |
| ValueLaws.HEraseLaw | src/command.cpp:795-833 | the stored map lacks the field and the pairs around it stay |
| Secrecy.StepRevealsNothing | src/command.cpp:151-950 | two tables that differ only in values whose read and write authority are both above level a give equal replies to every caller at or below a, for every command, the pops, which check the write authority only, and read included |
| Secrecy.RunRevealsNothing | src/command.cpp:151-950 | over whole runs by such callers, reads included, all replies agree and the tables stay indistinguishable: values out of reach have no influence, even if the files that are read differ in such values too |
| Secrecy.SavedFilesAreLow | src/hash.cpp:225-323 | the files saved from two such tables differ in values out of reach only, once opened, so that reading back a saved file is no way around |
| Replay.ClassesAgree | src/command.h:96-185 | the two dispatch tables agree: a line is classified as Write exactly when execute takes it for a command that can change the table |
| Replay.QuietExactly | src/command.h:140-188 | on any table a command outside the log leaves the table alone exactly when it does not address an expired entry |
| Replay.LogReplaysExactly | src/command.h:140-188 | for every history of lines from any table, expire and read included: the Write-classified lines alone rebuild the table at every point of the history exactly when no other line ever addresses an expired entry |
| Replay.LogReplays | src/command.h:140-188 | in particular they do for any history without expire and read, from any table without deadlines |
| Replay.ExpireBreaksReplay | src/command.cpp:151-163 | for every key and text: after make, expire, get and make the logged lines rebuild another table, because the get that drops the expired entry is not logged |
| ForwardedLog.TagAddsTokens | src/server_th.cpp:149-155 | the line that is classified has two tokens more than the command: a backspace and the authority |
| ForwardedLog.ForwardedIsLogged | src/server_th.cpp:155-246 | a forwarded command is taken into the log exactly when it is make without authorities or one of lmake, lpush, rpush, smake, spush and hmake |
| ServerLog.ServerLogReplays | src/server_th.cpp:141-274 | for every history of requests to one node, client and forwarded ones, set-up messages and reads included, and the log rule of the server: the logged lines rebuild the table at every point exactly when no request changes the table although its raw line is no Write or its reply is not plain |
| ServerLog.MissedIs | src/server_th.cpp:155-258 | that condition on one request, told from its line and the entries it finds, holds exactly when the request is not logged and changes the table |
| ServerLog.MissedFromClient | src/server_th.cpp:155-258 | a request without a tag and with a plain reply is missed exactly when it is no Write and meets an expired entry |
| ServerLog.MissedFromNode | src/server_th.cpp:155-258 | a forwarded command with a plain reply is missed exactly when it changes the table and is none of those that keep their class behind a tag |
| ServerLog.LogLineReadsBack | src/server_th.cpp:239-258 | a logged line sent to a server again stands for the same command and authority, whatever the authority of the connection |
| ForwardedLog.ForwardedDelIsLost | src/server_th.cpp:155-246 | a forwarded del that its owner executes removes the entry of any key and is never logged |
| SlotRanges.SizeReadRight | src/cluster.cpp:66-76 | from a first configuration line with one number, whatever text stands before and after it, the loop reads the cluster size right exactly when no digit after the first differs from zero |
| SlotRanges.SizeTwelve | src/cluster.cpp:66-76 | a cluster of 12 is read as a cluster of 2 |
| SlotRanges.BuildLists | src/cluster.cpp:77-92 | the running start yields the closed-form range of every node, in both message lists, for every size from 1 on; surplus lines overwrite the last entry |
| SlotRanges.ClosedForm | src/distribute.cpp:236-243 | the other builder computes the same ranges |
| SlotRanges.SharesAreEqual | src/cluster.cpp:77-91 | in numbers, for every cluster size: the ranges follow one another from slot 0 to 10006, all but the last have the same size, and the last is at least as large, by fewer slots than there are nodes |
| SlotRanges.EntryTokens | src/cluster.cpp:79-91 | entry k of the message lists carries the words of line k, and the last one those of the last line |
| SlotRanges.RangesPartition | src/cluster.cpp:83-91 | for every cluster size, larger than the number of slots included, each slot 0..10006 lies in the range of exactly one node |
| SlotRanges.AtoiReadsBack | src/server_th.cpp:313-314 | reading back a printed bound yields the bound, the -1 of an empty range included |
| SlotRanges.MessageTokens | src/server_th.cpp:293-294 | the tokens of a set-up message: verb, words of the address line, two bounds |
| SlotRanges.RangeSurvives | src/server_th.cpp:313-334 | a node that is sent a message with a two-word address line finds exactly the range it was built from |
| Routing.Server.ClusterConnect | src/server_th.cpp:277-319 | the range of a peer is appended to what the node knows |
| Routing.Server.HashReset | src/server_th.cpp:323-338 | the own range is replaced and nothing else |
| Routing.Server.Holder | src/server_th.cpp:217-220 | the first recorded range that holds the slot, or one past the last |
| Routing.Server.Scan | src/server_th.cpp:141-246 | on the heap: tag and authority taken off, the command executed, the reply followed up by set-up, forwarding or answering |
| OneHop.MessageArrives | src/server_th.cpp:191-198 | a set-up message goes through execution and dispatch and leaves the table alone and the range recorded |
| OneHop.Configure | src/cluster.cpp:135-156 | after the second loop node j knows its own range and those of all others in order, whatever its table holds |
| OneHop.ForwardsToOwner | src/server_th.cpp:213-228 | a node that does not own the key changes nothing and forwards the tagged command to the one owner; the scan never runs off |
| OneHop.TagComesOff | src/server_th.cpp:149-160 | the receiver gets the same tokens and the same authority, for every int authority |
| OneHop.ConnectionAuthority | src/server_th.cpp:149-165 | a request runs at its connection's authority, whatever that is, exactly when its line has no backspace; at a given one also when the same number stands behind the first backspace |
| OneHop.TagDecides | src/server_th.cpp:149-165 | behind a tag the connection's authority plays no part: any node executes the line as the command at the authority in the tag |
| OneHop.OwnerActs | src/server_th.cpp:213-246 | the owner executes the command and answers, with the reply of its own step, exactly when that neither contains the word hashval nor looks like a set-up reply |
| Redirects.ReplyIsHarmless | src/command.cpp:151-933 | if neither a token of a command about a key nor a piece of the entry under its key contains the word hashval or a backspace, the reply of every such command does not either, and a table of such pieces stays one |
| Redirects.DataHarmlessIsParts | src/hashnode.cpp:104-134 | the pieces in question are those the value is printed as |
| OneHop.ReplyIsPlain | src/server_th.cpp:213-246 | a condition on the characters of the command line and the stored pieces alone under which no reply can be taken for a redirection |
| PlainReplies.ReplyIsPlainExactly | src/server_th.cpp:213-246 | for every command, table, authority and time the exact condition under which the reply can be told from a redirection and a set-up reply, in terms of the arguments and the entries found: the key wherever a refusal names it, and the printed pieces, element or named word of a granted command |
| PlainReplies.AnsweredExactly | src/server_th.cpp:213-246 | so the owner of a key answers a command exactly under that condition |
| PlainReplies.JoinPlain | src/hashnode.cpp:104-134 | pieces joined by commas contain the word exactly when one of them does |
| PlainReplies.SortedPlain | src/command.cpp:646-651 | sorting the pieces of a text neither makes nor removes the word |
| OneHop.OwnerAnswers | src/server_th.cpp:213-246 | under that condition the owner answers with the reply of its own step |
| OneHop.NotOwnerPassesOn | src/server_th.cpp:147-228 | a forwarded message that reaches a node which does not own the key changes nothing there and is passed on to the owner, with the authority of the connection it came by in place of the one it carried |
| OneHop.OneHopIsEnough | src/server_th.cpp:149-160 | the owner executes a forwarded command at the authority of the original client, whatever the authority of the connection, and answers it without a further hop exactly under the same condition on the reply |
| OneHop.StoredTextIsRedirected | src/server_th.cpp:214-220 | a readable live text that contains the word hashval is never answered by its owner, whatever the table, the key and the cluster size |
| OneHop.MissingKeyIsRedirected | src/server_th.cpp:214-220 | nor is the refusal for a missing key whose name contains the word |
| ClusterTable.StepIsLocal | src/command.cpp:151-933 | a command about a key sees and changes only the slot of its key |
| ClusterTable.AnyNodeWillDo | src/server_th.cpp:141-274 | whichever node is asked, the owner executes the command, no other table changes, and within one hop the request is answered, with the owner's reply, exactly when that reply is plain |
| ClusterTable.ClusterIsOneTable | src/server_th.cpp:141-274 | a configured cluster of any size refines one table put together from the slots each node owns: same table, and the same reply exactly when it is plain |
| ClusterTable.ClusterRun | src/server_th.cpp:141-274 | for any history of commands about keys, spread over the nodes in any way: every request is answered within one hop exactly when that condition holds along the history on the merged table, and then with the answers and the tables of the merged table |
| ClusterTable.ClusterServes | src/server_th.cpp:141-274 | with hypotheses on tables and requests alone: if neither the stored pieces nor the requests contain the word hashval or a backspace, every request of any such history is answered as by the one table |
| LinkedList.List.Link | src/linkedlist.cpp:47-65 | the new node is wired between the tail and the head, which both pushes share |
| LinkedList.List.Drop | src/linkedlist.cpp:199-219 | the removal the pops and del share: the node is bypassed, the head moves on if it was the one |
| HashSet.Hashset.IsEmpty | src/command.cpp:570-572 | true exactly on the empty set |
| FieldMap.Hashmap.IsEmpty | src/hashmap.cpp:82-85 | true exactly on the empty field map |
| FieldMap.Hashmap.Insert | src/hashmap.cpp:141-150 | the new pair is linked in front of the chain |
| Text.CountSeparators | src/kvstore.cpp:75-78 | the counting loop counts the separators |
| Text.FillPieces | src/kvstore.cpp:82-92 | the cutting loop fills an array of the right length with the pieces |
| Text.StripFront | src/kvstore.cpp:116-118 | the leading spaces go and the words stay |
| Text.StripBack | src/kvstore.cpp:120-123 | the trailing spaces go, the index not running below the text |
| Text.Collapse | src/kvstore.cpp:125-132 | every run of spaces shrinks to one, although the index steps back after each erasure |
| Entries.PushAllPlaced | src/command.cpp:71-72 | building a set from text yields the set of the pieces |
| Entries.PutAllDistinct | src/command.cpp:87-90 | building a field map from text holds each field once |
| Values.ListFrom | src/command.cpp:56-57 | a fresh list of the pieces in order |
| Values.SetFrom | src/command.cpp:71-72 | a fresh set of the pieces |
| Values.MapFrom | src/command.cpp:87-90 | a fresh field map of the pairs, an odd piece at the end ignored |
| Table.KeyValue.SetTtl | src/kvstore.h:116-116 | a new deadline from now on |
| Table.KeyValue.SetV | src/kvstore.h:115-115 | a new value, everything else as it was |
| Table.Hash.constructor | src/hash.cpp:34-44 | an empty valid table that owns all slots |
| Table.Hash.Overwrite | src/hash.cpp:150-158 | value and authorities of an entry replaced in place |
| Table.Hash.Insert | src/hash.cpp:134-149 | a new node linked in front of the chain of its slot |
| Table.Hash.Unwire | src/hash.cpp:179-182 | the node bypassed in both directions, the head moved if it was first |
| Table.Glue | src/hash.cpp:305-305 | the pieces from one position on joined again in place |
| Table.Hash.ReadLine | src/hash.cpp:256-320 | one line decrypted, parsed and set, or the outcome that ends the reading |
| Snapshot.SetReadsBack | src/hash.cpp:308-312 | pushing the printed elements of a set in order rebuilds every bucket as it was |
| Snapshot.PutAllReverses | src/hash.cpp:313-317 | setting the printed pairs of a field map in order rebuilds its chain back to front |
| Snapshot.MirrorChainIs | src/hash.cpp:139-146 | a chain whose records are set in order comes back reversed |
| Safety.StepKeepsTableOk | src/command.cpp:151-933 | one command of any kind but read keeps the table invariant |
| Commands.PushFrontAll | src/command.cpp:307-308 | the argument loop of lpush |
| Commands.PushBackAll | src/command.cpp:336-337 | the argument loop of rpush |
| Commands.InsertAll | src/command.cpp:544-545 | the argument loop of spush |
| Commands.JoinArgs | src/command.cpp:274-278 | the argument loop of lmake, smake and hmake |
| Commands.Command.Tokenize | src/command.h:68-69 | the command line cut into non-empty tokens |
| Commands.Command.DispatchOnValue | src/command.h:96-124 | the commands on the value of one entry reach their method |
| Commands.Command.DispatchOnEntry | src/command.h:96-131 | the commands that create, delete or mark an entry reach their method |
| Commands.Command.Dispatch | src/command.h:96-134 | every entry of the dispatch table reaches its method, everything else is refused |
| SlotRanges.ReadSize | src/cluster.cpp:66-76 | the loop keeps the last suffix that starts with a digit and is not zero |
| Routing.Server.Act | src/server_th.cpp:181-250 | set-up, forwarding or answering, by the reply |
| OneHop.SearchFindsOwner | src/server_th.cpp:217-220 | the search of a configured node stops at the owner |

## Left out

- Sockets, threads, mutexes, printing, configuration file access and `main` functions: a request is delivered whole, NUL-free and in one piece, and connects and sends succeed.
- Fail-over and replication (`auto_send`, `try_cluster`, `replica_add`, `replica_accept`): their messages carry no authority, so replicas are not claimed to agree.
- Commands.Command.Read: an exception of strtoint on an empty field, or a type code outside 0..3, ends in the reply ABORTED; after such a type code the code stores a value with a dangling address and reads on, and nothing after that is modelled.
- Table.ParseFields: ends at a type code outside 0..3, for the same reason.
- Table.Hash.ReadLine: ends at a type code outside 0..3, for the same reason.
- Table.Hash.Read: ends at a type code outside 0..3, for the same reason.
- Routing.Server.Scan: reading past a vector, an array or a string ends in the outcome Undefined; the session authority that `client` sets, the log and the counters of replicas are not part of the state.
- Routing.Server.Act: `client`, `give` and the replica verbs only yield their reply, for the same reason.
- ClusterTable.AnyNodeWillDo: follows a request for at most one hop; what the further hops of a reply that is not plain do is not modelled.
- ClusterTable.ClusterRun: says nothing about the tables once a reply is not plain, since then one hop is not the whole request.
- SlotRanges.BuildLists: asks for at least as many configuration lines as nodes; with fewer the code leaves list entries empty.
- OneHop.ReplyIsPlain: sufficient only; `PlainReplies.ReplyIsPlainExactly` is the exact condition.
- OneHop.Configure: assumes address lines of exactly two words, which is what the receiver's token positions demand.
- Replay.LogReplaysExactly: takes lines without a tag and the class alone as the log rule; `ServerLog.ServerLogReplays` has tags and the server's own rule. The encryption of the log, with its sign-extended copy of non-ASCII bytes, is not modelled.
- Secrecy.RunRevealsNothing: about replies and tables; the file that save writes carries every value, and a file opened with a password that does not invert the key may differ in more.
- Cipher.GetEncryptKey: takes the random draws as given and does not claim that an accepted one comes.
- Cipher.KeyGenerator: takes the primality of both numbers as given, because the second trial-division loop accepts composites such as 289.
- Cipher.TrialDivision: the floating-point square root is the integer square root, which is exact for the ints in question.
- StringCipher.DecryptString: takes a non-empty text, since for the empty one the code writes before its buffer.
- Text.StrToInt: takes a non-empty text, since the code throws on the empty one; tokens are never empty, and the snapshot reader models the exception as an outcome.
- Text.StripBack: looks at the bound before the character, where the code reads one before the start of a blank text.
- LinkedList.List.Get: takes a non-empty list, as do `Set` on lists, `Table.Hash.Del` a key that is there and `FieldMap.Hashmap.DelFv` a field that is there; all callers check this first.
- LinkedList.List.Find: lengths, counters and positions are unbounded, so containers of more than 2^31 elements are not modelled.
- HashSet.Hashset.Push: the array of bucket pointers is a sequence of list objects, as it is never reassigned after construction.
- Table.Hash.Set: the value that is overwritten is not freed, as in the code; deallocation in destructors and the deletion of the array that split leaves unset for an empty text are not modelled.
- Table.Hash.Del: the mutex inside the freed node is ignored.
- Table.KeyValue.TtlLeft: difftime is the difference of integers, and the timer of an entry without deadline, which the code leaves unset, is 0.
- Commands.Command.Sort: std::sort is a library call; `Sorting.OrderIsUnique` shows that its promise determines the result.
- Commands.Command.HGet: a field that holds the text NULL is reported as missing, as in the code.
- Commands.Command.Expire: the current time is read once, while the code reads the clock a second time when it sets the timer.
- ClusterTable.ClusterIsOneTable: about commands on one key; `keys` and `save` work on the node they are sent to, and `read` is routed by the hash of its password.
- The table constructor with a slot range (its counters are unset) and `ttl_expire_background` (random, its thread is disabled).
- The unused hash function of the field map, and the accessors that only forward to the entry.
