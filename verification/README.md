# Models of the storage, naming and encoding cores of Jumpscale

Nine parts of the Jumpscale SDK keep state or translate between two forms, and each promises something
that spans several of its functions. Every module here models one part and proves that promise:

| module | part | main results |
|---|---|---|
| `Bcdb` | object store with a hash index, a range index and a linear scan | over every run of `create_obj` and `save_obj` unique values stay unique and the range index agrees with the scan; an index lookup agrees with it if and only if the property is unique and the value truthy (or the property is the id) |
| `CommandQuoting` | argument lists as one command line | the Microsoft C runtime and a POSIX shell split the line back into exactly the arguments |
| `Mnemonic` | keys as words | decoding undoes encoding if and only if the key has 4 to 2048 bytes in groups of four; an accepted mnemonic is canonical if and only if its words are listed |
| `TreeManager` | tree with parent pointers and dotted paths | the heap refines a prefix-closed map from paths to data under every operation |
| `LogHandler` | log of live list and page files | nothing is lost; a record can be read back if and only if its page is current or old enough |
| `Resp` | reply encoder of the Gedis server | a RESP2 reader gets exactly the values sent if and only if they hold no booleans and no non-ASCII text where a length counts characters |
| `Alerts` | deduplicating alert store | over every run an identifier finds exactly the summary of the reports made under it, every raise is counted once, and a report is kept apart from all others if and only if it has no colon |
| `ConfigStore` | `Base` objects saved with selective encryption | saving fails if and only if an enum is None; loading restores every object of a class, and the file hides every secret, if and only if the class meets a condition on its fields |
| `SchemaText` | schema normaliser | idempotent, keeps comments, strings and line breaks, and leaves exactly the texts in normal form alone |

`Wrappers`, `Text` and `Decimal` hold what several modules share: options and results, splitting and
joining, the order of texts, and numbers in decimal.

Classes with updated fields are classes here, with methods proved against functions on their abstract
state (`State()`, `Contents()`, `Log(app)`, `Db()`); the theorems are lemmas about those functions and about
runs of operations. Redis keys and hashes are maps, Redis lists are sequences, SQLite tables are maps from
id to row, and page files are a map from page number to records. SHA-256, MD5, NaCl with Base64, `int(str)`
and `str.lower().strip()` are function values the theorems quantify over; beyond the form of
their results (64 ASCII characters, a non-empty text) the only thing assumed is that decrypting undoes encrypting;
`Alerts.SharedIdentifier` and `Alerts.KeptApart` also assume an injective digest. Clocks and time stamps are parameters.

## Where the code and its documentation differ

- `BCDB.get_range` says it uses the range index when there is one; its test is inverted
  (`jumpscale/data/bcdb/bcdb.py:119`), so it scans where the index exists and raises where it does not.
- `RedisIndexClient.set` removes the previous entry only under a truthy value
  (`jumpscale/data/bcdb/clients.py:50`). The entry of a `""` or `0` that was given up stays and leads to an
  object without that value (`Bcdb.StaleEntry`), and the uniqueness test then refuses another object although the
  value is free (`Bcdb.FalseRefusal`; exactly when is `Bcdb.RefusalExact`).
- `get_entry` promises the object with a value; on a non-unique indexed property it can answer None although one is
  stored (`Bcdb.NonUniqueIndexMisses`; exactly when lookups are right is `Bcdb.IndexLookupExact`).
- `_normalize_string` claims to remove all spaces; it does so exactly when none lies in a comment or a string
  (`SchemaText.AllBlanksGo`), and a quote inside a comment opens a string (`SchemaText.QuoteInComment`).
- `ResponseEncoder.encode` meets booleans in the branch for integers and writes `:True`
  (`jumpscale/servers/gedis/server.py:35-38`), which is no RESP integer; `_bulk` writes a length in characters, not bytes.
- `alert_raise` appends a traceback even when there is none (`jumpscale/tools/alerthandler/alerthandler.py:193-197`), so
  the list grows past six.
- `record_get` looks on the live list for a page that ended less than a page size ago
  (`jumpscale/core/logging/logging.py:214`), although that page has already been dumped.
- `add_node_by_path` with an empty name on the way raises after creating the nodes before it
  (`jumpscale/data/treemanager/treemanager.py:266-273`).
- Secrets inside a list are written unencrypted, and those of listed objects are not found again on loading
  (`jumpscale/core/base/store.py:140-149`, `jumpscale/core/base/meta.py:121-125`; `ConfigStore.LeakingObject`,
  `ConfigStore.LosingObject`).
- Validation accepts None in an enum or list field that is not required; saving then raises AttributeError for the
  enum (`ConfigStore.NoneEnumFails`), and the list comes back empty.
- `_get_identifier` joins texts by colons, so a report with a colon shares its identifier with reports whose texts
  differ (`Alerts.Merged`; exactly when is `Alerts.KeptApart`).

## Model

| member | source | states |
|---|---|---|
| `Bcdb.BCDB.constructor` | jumpscale/data/bcdb/models/base.py:22-31 | a new store is empty and satisfies the invariant |
| `Bcdb.BCDB.SetFromDict` | jumpscale/data/bcdb/models/base.py:140-170 | fails exactly when some given value is not accepted by its property; otherwise the object is well typed, has each given value of the type, the integer each numeric text stands for, and the default where none is given; loading a stored object gives it back unchanged |
| `Bcdb.BCDB.GetDict` | jumpscale/data/bcdb/models/base.py:123-138 | the dict has exactly the schema's properties with the object's values, and is the object for a well-typed one |
| `Bcdb.BCDB.CreateObj` | jumpscale/data/bcdb/models/base.py:36-49 | takes the next id even when the data is refused, overrides a given id and changes nothing else; the object has each given value of its property's type, the integer a given numeric text stands for, and the default of each property not given; fails exactly when another value is not accepted |
| `Bcdb.BCDB.AssertUniqueness` | jumpscale/data/bcdb/models/base.py:51-64 | passes exactly when no unique property's index entry leads to an object with another id |
| `Bcdb.BCDB.AssertUnique` | jumpscale/data/bcdb/models/base.py:61-64 | passes exactly when the property is not unique, or its index entry leads nowhere or to an object with the same id |
| `Bcdb.BCDB.SaveObj` | jumpscale/data/bcdb/models/base.py:66-73 | keeps the invariant; on a clash raises and leaves storage, both indexes and the counter untouched, otherwise stores the object everywhere |
| `Bcdb.BCDB.StoreObj` | jumpscale/data/bcdb/bcdb.py:29-45 | the new state replaces row, index entries and stored object together; the reads of the old object inside the loop always see the object saved before |
| `Bcdb.BCDB.WriteIndexes` | jumpscale/data/bcdb/bcdb.py:38-44 | the whole loop writes, property by property, the new entries and removes the old ones |
| `Bcdb.BCDB.WriteIndex` | jumpscale/data/bcdb/bcdb.py:39-44 | although index entries are changing, the lookup by id inside the loop still finds the object saved before |
| `Bcdb.BCDB.IndexClientSet` | jumpscale/data/bcdb/clients.py:49-52 | the entry of a truthy previous value goes, then the new value leads to the id |
| `Bcdb.BCDB.GetItemById` | jumpscale/data/bcdb/clients.py:20-22 | the stored object comes back exactly as it was saved, None when there is none |
| `Bcdb.BCDB.GetKeysInModel` | jumpscale/data/bcdb/clients.py:27-35 | every stored object exactly once |
| `Bcdb.BCDB.ScanKeys` | jumpscale/data/bcdb/clients.py:27-34 | the ids of all stored objects, each once |
| `Bcdb.BCDB.RowsInRange` | jumpscale/data/bcdb/clients.py:79-87 | for bounds of the column's type, exactly the ids whose column lies in the closed range, each once |
| `Bcdb.BCDB.GetEntry` | jumpscale/data/bcdb/bcdb.py:71-99 | the answer for an indexed property is what its index entry leads to; for any other property it is a scan's answer; an unknown property is refused |
| `Bcdb.BCDB.RangeEntry` | jumpscale/data/bcdb/bcdb.py:92-94 | asking the range index for one value answers as a scan would |
| `Bcdb.BCDB.ScanEntry` | jumpscale/data/bcdb/bcdb.py:96-99 | the object found is stored and has the value; None only when no stored object has it |
| `Bcdb.BCDB.GetItemFromIndex` | jumpscale/data/bcdb/bcdb.py:130-150 | both error cases in their order, otherwise what the entry under the shown value leads to |
| `Bcdb.BCDB.GetItemFromIndexSet` | jumpscale/data/bcdb/bcdb.py:152-172 | for a range-indexed property and bounds of its type exactly the stored objects in the closed range, each once; both error cases |
| `Bcdb.BCDB.LoadAll` | jumpscale/data/bcdb/bcdb.py:172 | the objects of the given ids, each once |
| `Bcdb.BCDB.ScanRange` | jumpscale/data/bcdb/bcdb.py:122-127 | for bounds of the property's type the scan returns exactly the stored objects in the closed range, each once, which is what the range index returns |
| `Bcdb.BCDB.GetRange` | jumpscale/data/bcdb/bcdb.py:101-127 | with the inverted test: exact for range-indexed properties and bounds of their type, NotIndexed for every other one |
| `Bcdb.BCDB.GetByIndexed` | jumpscale/data/bcdb/models/base.py:83-99 | looking up by an indexed property is its index entry |
| `Bcdb.WrittenAll` | jumpscale/data/bcdb/bcdb.py:38-44 | any index entry after the write loop: new value, removed old value, or unchanged |
| `Bcdb.EntryAfter` | jumpscale/data/bcdb/bcdb.py:29-45 | the same for a typed value of an indexed property after a save, using that shown values are injective |
| `Bcdb.StoredKeepsInv` | jumpscale/data/bcdb/bcdb.py:29-45 | a save that passed the uniqueness test keeps: ids match keys and counter, rows equal stored columns, unique values lead to their object, truthy entries lead to an object with the value |
| `Bcdb.StoredUnique` | jumpscale/data/bcdb/bcdb.py:29-45 | after a save every stored object's unique values still lead to its id |
| `Bcdb.UniqueEntry` | jumpscale/data/bcdb/bcdb.py:29-45 | another object's unique entry is neither overwritten nor deleted by a save |
| `Bcdb.StoredTruthy` | jumpscale/data/bcdb/bcdb.py:29-45 | after a save every entry under a truthy value leads to a stored object with that value |
| `Bcdb.PriorById` | jumpscale/data/bcdb/bcdb.py:38-42 | under the invariant the id index finds exactly the stored object |
| `Bcdb.TableIsExact` | jumpscale/data/bcdb/bcdb.py:152-172 | under the invariant the range table selects exactly the stored objects in range |
| `Bcdb.RangeOfInts` | jumpscale/data/bcdb/bcdb.py:122-127 | on an integer property the range is exactly the stored objects with min <= value <= max |
| `Bcdb.RangeOfTexts` | jumpscale/data/bcdb/bcdb.py:122-127 | on a text property it is exactly those between min and max by the first differing character |
| `Bcdb.Run` | jumpscale/data/bcdb/models/base.py:36-73 | every state reached by taking ids and saving satisfies the invariant |
| `Bcdb.UniqueValues` | jumpscale/data/bcdb/models/base.py:51-73 | in every reachable state no two stored objects share a unique value, and the index leads from each to the object that has it |
| `Bcdb.IndexIsSound` | jumpscale/data/bcdb/bcdb.py:71-91 | in every reachable state an object found under a truthy value of an indexed property, unique or not, has that value |
| `Bcdb.UniqueLookup` | jumpscale/data/bcdb/bcdb.py:71-99 | under the invariant an index lookup of a truthy value of a unique property answers as the scan |
| `Bcdb.StaleEntry` | jumpscale/data/bcdb/clients.py:49-52 | for every falsy value of an indexed property other than the id there is a run after which the index returns an object without the value |
| `Bcdb.NonUniqueIndexMisses` | jumpscale/data/bcdb/bcdb.py:71-99 | for every schema, non-unique indexed property and truthy value there is a run after which a stored object has the value and the lookup returns None |
| `Bcdb.IndexLookupExact` | jumpscale/data/bcdb/bcdb.py:71-99 | for every indexed property and value: the lookup agrees with the scan in every reachable state if and only if the property is unique and the value neither 0 nor the empty text, or the property is the id |
| `Bcdb.ClashMeans` | jumpscale/data/bcdb/models/base.py:51-64 | a unique value another stored object has is always noticed; a truthy value or an id is found taken only when it is |
| `Bcdb.RefusedExactly` | jumpscale/data/bcdb/models/base.py:51-73 | an object whose unique values are truthy is refused if and only if another stored object has one of them |
| `Bcdb.FalseRefusal` | jumpscale/data/bcdb/models/base.py:51-73 | for every falsy value of a unique property other than the id there is a run and an object with an id handed out that is refused although no stored object has the value |
| `Bcdb.RefusalExact` | jumpscale/data/bcdb/models/base.py:51-73 | the test for a unique value is right about every object in every reachable state if and only if the value is neither 0 nor the empty text or the property is the id |
| `Bcdb.EntryStays` | jumpscale/data/bcdb/clients.py:49-52 | an object that gives up a falsy value is still found under it |
| `Bcdb.GivenUp` | jumpscale/data/bcdb/bcdb.py:38-44 | an object that gives up a truthy value takes the entry away, whoever else has the value |
| `CommandQuoting.Args2Cmd` | jumpscale/data/platform/__init__.py:325-364 | the Microsoft C runtime splits the line back into exactly the arguments |
| `CommandQuoting.AppendCmdWord` | jumpscale/data/platform/__init__.py:329-362 | one argument is appended as a quoted word, after a space when something precedes it |
| `CommandQuoting.EscapeChars` | jumpscale/data/platform/__init__.py:340-362 | the inner loop with its buffer of backslashes writes the escaped form, with the held backslashes written once or twice at the end |
| `CommandQuoting.CmdRoundTrip` | jumpscale/data/platform/__init__.py:325-364 | splitting undoes quoting for every argument list, with empty arguments, blanks, quotes and trailing backslashes |
| `CommandQuoting.ScanEscaped` | jumpscale/data/platform/__init__.py:340-358 | reading the escaped characters of an argument from any pending backslashes yields the argument and goes on behind it |
| `CommandQuoting.ScanLiteralQuote` | jumpscale/data/platform/__init__.py:344-348 | 2n+1 backslashes and a quote read as n backslashes and the quote |
| `CommandQuoting.ScanClosing` | jumpscale/data/platform/__init__.py:357-362 | 2n backslashes before the closing quote read as n backslashes |
| `CommandQuoting.ScanWord` | jumpscale/data/platform/__init__.py:329-362 | a quoted word followed by a space or the end reads as the argument |
| `CommandQuoting.ScanWords` | jumpscale/data/platform/__init__.py:325-364 | the words of a whole line read as the arguments |
| `CommandQuoting.Args2Sh` | jumpscale/data/platform/__init__.py:307-322 | a POSIX shell splits the line back into exactly the arguments, with nothing left to expand |
| `CommandQuoting.ShRoundTrip` | jumpscale/data/platform/__init__.py:307-322 | for every argument list the line reads back, by a reader with its own list of special characters, none of which may stand unquoted |
| `CommandQuoting.ScanSafe` | jumpscale/data/platform/__init__.py:315-317 | an unquoted word of safe characters reads as itself |
| `CommandQuoting.ScanSingle` | jumpscale/data/platform/__init__.py:318-320 | the single-quoted form, with its quotes in double quotes, reads as the argument |
| `CommandQuoting.ScanShWord` | jumpscale/data/platform/__init__.py:312-320 | any written word reads as its argument |
| `CommandQuoting.ShBare` | jumpscale/data/platform/__init__.py:304-317 | an argument is written as it is if and only if it is not empty and has only letters, digits and _@%+=:,./- |
| `CommandQuoting.CmdBare` | jumpscale/data/platform/__init__.py:336-354 | an argument is written as it is if and only if it is not empty and has no blank and no double quote |
| `CommandQuoting.QuotingInjective` | jumpscale/data/platform/__init__.py:307-364 | two argument lists with the same line, in either style, are equal |
| `Mnemonic.ToBin` | jumpscale/data/encryption/mnemonic.py:120-133 | the numbers in fixed width one after the other, the low bits of each |
| `Mnemonic.PaddedBinIsBits` | jumpscale/data/encryption/mnemonic.py:132 | padding with zeros and cutting from the right gives exactly the low bits |
| `Mnemonic.WordIndex` | jumpscale/data/encryption/mnemonic.py:79-96 | the binary search finds the lower bound in any sorted list, and a listed word at its place |
| `Mnemonic.ListedWordIndex` | jumpscale/data/encryption/mnemonic.py:79-96 | the lower bound of a listed word holds that word |
| `Mnemonic.KeyToMnemonic` | jumpscale/data/encryption/mnemonic.py:99-117 | the words of the key and checksum bits; fails when a slice is empty |
| `Mnemonic.WriteWords` | jumpscale/data/encryption/mnemonic.py:114-117 | the loop over slices writes the words joined by spaces |
| `Mnemonic.MnemonicToKey` | jumpscale/data/encryption/mnemonic.py:40-62 | the key of the words read, or the checksum error |
| `Mnemonic.VerifyChecksum` | jumpscale/data/encryption/mnemonic.py:65-76 | accepts exactly when the recomputed bits are the given ones |
| `Mnemonic.BitsOfValue` | jumpscale/data/encryption/mnemonic.py:116 | reading a bit string as a number and writing it in the same width gives it back |
| `Mnemonic.ValueOfBits` | jumpscale/data/encryption/mnemonic.py:132 | a number that fits its width is read back from its bits |
| `Mnemonic.PackChunks` | jumpscale/data/encryption/mnemonic.py:59 | cutting a bit string of whole pieces into numbers and writing them gives it back |
| `Mnemonic.ChunksPack` | jumpscale/data/encryption/mnemonic.py:114-116 | numbers that fit are cut back out of their joined bits |
| `Mnemonic.ChecksumBits` | jumpscale/data/encryption/mnemonic.py:53-60 | for 3q+1 and 3q+2 words the checksum slice has q+1 bits and at most q can be recomputed; for 3q both have q while q is at most 512 |
| `Mnemonic.AcceptedShape` | jumpscale/data/encryption/mnemonic.py:53-60 | accepted word numbers come in threes, at most 1536, and give four bytes for every three |
| `Mnemonic.AcceptedMnemonic` | jumpscale/data/encryption/mnemonic.py:40-62 | an accepted mnemonic has a multiple of three words, 3 to 1536, and a key of four bytes per three words |
| `Mnemonic.WrongWordCount` | jumpscale/data/encryption/mnemonic.py:53-61 | every mnemonic with another word count is refused with the checksum error |
| `Mnemonic.DecodeEncoded` | jumpscale/data/encryption/mnemonic.py:40-117 | decoding the encoding of a key of 4m bytes, m from 1 to 512, gives the key |
| `Mnemonic.RoundTrip` | jumpscale/data/encryption/mnemonic.py:40-117 | decoding undoes encoding if and only if the key's length is a multiple of four from 4 to 2048 |
| `Mnemonic.BitAt` | jumpscale/data/encryption/mnemonic.py:132 | each bit of a fixed-width number by division |
| `Mnemonic.ByteBit` | jumpscale/data/encryption/mnemonic.py:132 | each bit of the joined bytes by division |
| `Mnemonic.DecodesTo` | jumpscale/data/encryption/mnemonic.py:40-76 | a key is the answer if and only if there are 3q words, q at most 512, the first 32q bits of their numbers are the key's, and the other q are the first bits of the digest of the key |
| `Mnemonic.EncodesTo` | jumpscale/data/encryption/mnemonic.py:99-117 | for a key of 2 to 2048 bytes: the numbers of the words written, joined, are the first 11c bits of the key followed by its digest, c being the number of whole words |
| `Mnemonic.TooLong` | jumpscale/data/encryption/mnemonic.py:109-116 | writing fails with ValueError if and only if the key is so long that the last slice lies behind all bits |
| `Mnemonic.Canonical` | jumpscale/data/encryption/mnemonic.py:40-117 | an accepted mnemonic is the encoding of its key if and only if all its words are listed |
| `Mnemonic.ReadAsLowerBound` | jumpscale/data/encryption/mnemonic.py:53-57 | decoding is unchanged when every word is replaced by its lower bound in the list |
| `TreeManager.TreeNode.constructor` | jumpscale/data/treemanager/treemanager.py:34-44 | a node has the given name, parent and data and no children |
| `TreeManager.Tree.constructor` | jumpscale/data/treemanager/treemanager.py:182-183 | a new tree maps the empty path to the root and nothing else |
| `TreeManager.Tree.AddChild` | jumpscale/data/treemanager/treemanager.py:46-59 | linking a new node under a free name keeps every pointer, key and parent consistent and adds exactly that path |
| `TreeManager.Tree.Attach` | jumpscale/data/treemanager/treemanager.py:271-275 | a new node appears at exactly one new path with its data; everything else is unchanged |
| `TreeManager.Tree.NewChild` | jumpscale/data/treemanager/treemanager.py:271-275 | a new node with the given data is linked under a free name |
| `TreeManager.Tree.Unlink` | jumpscale/data/treemanager/treemanager.py:122-134 | deleting one key keeps the structure and removes exactly the path and its extensions |
| `TreeManager.Tree.Detach` | jumpscale/data/treemanager/treemanager.py:111-134 | the same on the stored data |
| `TreeManager.Tree.GetByPath` | jumpscale/data/treemanager/treemanager.py:218-238 | the node at the split path, None exactly when there is none |
| `TreeManager.Tree.StepInto` | jumpscale/data/treemanager/treemanager.py:269-273 | one step of the walk reaches the next prefix, created without data when missing, and moves no existing node |
| `TreeManager.Tree.Descend` | jumpscale/data/treemanager/treemanager.py:265-273 | the walk adds exactly the missing prefixes up to the first empty name, where it stops |
| `TreeManager.Tree.AddLast` | jumpscale/data/treemanager/treemanager.py:274-275 | the last step refuses exactly when the path was there before the call, and then nothing has changed |
| `TreeManager.Tree.AddNodeByPath` | jumpscale/data/treemanager/treemanager.py:251-275 | keeps the structure; the stored map becomes the added one; which error is raised; existing nodes stay where they are; NameExistsError leaves the whole tree unchanged |
| `TreeManager.Tree.RemoveNode` | jumpscale/data/treemanager/treemanager.py:240-249 | the root is refused with nothing changed; any other node leaves with exactly its extensions |
| `TreeManager.Tree.RemoveNodeByPath` | jumpscale/data/treemanager/treemanager.py:277-293 | returns the node at the path and removes exactly its extensions, or returns None and changes nothing |
| `TreeManager.Tree.GetPath` | jumpscale/data/treemanager/treemanager.py:136-148 | following the parents gives the names of the node's path joined by dots |
| `TreeManager.Tree.FindAgain` | jumpscale/data/treemanager/treemanager.py:136-148 | looking a node's path up finds the node if and only if its name is not empty or it is a child of the root |
| `TreeManager.Tree.SearchCustom` | jumpscale/data/treemanager/treemanager.py:83-98 | each named node below that satisfies the predicate exactly once, no node before one below it, no other node |
| `TreeManager.Tree.SearchChildren` | jumpscale/data/treemanager/treemanager.py:93-94 | the loop over the children lists exactly the hits properly below the node |
| `TreeManager.AddedPoints` | jumpscale/data/treemanager/treemanager.py:251-275 | after an accepted add a path is there exactly when it was or is a prefix of the added one; new prefixes have no data, the rest is unchanged |
| `TreeManager.StoppedPoints` | jumpscale/data/treemanager/treemanager.py:266-273 | an add stopped by an empty name has created exactly the prefixes before that name |
| `TreeManager.FirstEmptyAt` | jumpscale/data/treemanager/treemanager.py:266-268 | where the walk stops: the first empty name before the last, or the last position |
| `TreeManager.PrefixesAdded` | jumpscale/data/treemanager/treemanager.py:266-273 | which paths the walk adds, and with what data |
| `TreeManager.RefusedUnchanged` | jumpscale/data/treemanager/treemanager.py:266-275 | a refused add leaves the map unchanged if and only if the name exists or everything before the first empty name was there |
| `TreeManager.StaysClosed` | jumpscale/data/treemanager/treemanager.py:251-293 | adding and removing keep the map closed under prefixes |
| `TreeManager.RemoveUndoesAdd` | jumpscale/data/treemanager/treemanager.py:251-293 | removing a path just added leaves the map before the add, but for prefixes the add created |
| `TreeManager.MissingPrefix` | jumpscale/data/treemanager/treemanager.py:233-236 | a path whose prefix is missing is missing, so stopping early is right |
| `TreeManager.SamePrefixes` | jumpscale/data/treemanager/treemanager.py:265-275 | a path that is taken had all its prefixes, so the walk towards it created nothing |
| `LogHandler.RedisLogHandler.constructor` | jumpscale/core/logging/logging.py:96-105 | every application starts with an empty log |
| `LogHandler.RedisLogHandler.Handle` | jumpscale/core/logging/logging.py:161-182 | one message extends its application's log and leaves every other application's log alone |
| `LogHandler.RedisLogHandler.DumpRecords` | jumpscale/core/logging/logging.py:134-137 | writes the first page of the live list to the page file and nothing else |
| `LogHandler.RedisLogHandler.CleanUp` | jumpscale/core/logging/logging.py:158-159 | drops the first page from the live list and nothing else |
| `LogHandler.RunCount` | jumpscale/core/logging/logging.py:184-196 | the counter, which `records_count` reads, is the number of messages logged |
| `LogHandler.RedisLogHandler.RecordGet` | jumpscale/core/logging/logging.py:198-223 | answers as the lookup function, including None and the TypeError of parsing a missing record |
| `LogHandler.RedisLogHandler.RemoveAllRecords` | jumpscale/core/logging/logging.py:225-235 | the application starts over; page files go exactly when dumping is on |
| `LogHandler.PageBounds` | jumpscale/core/logging/logging.py:129-132 | an id lies in the page it is mapped to |
| `LogHandler.PageUnique` | jumpscale/core/logging/logging.py:129-132 | and in no other page |
| `LogHandler.IndexInPage` | jumpscale/core/logging/logging.py:129-132 | the mapped index is the place within the page, -1 for its last record |
| `LogHandler.LaidOutStep` | jumpscale/core/logging/logging.py:161-182 | one more message keeps the layout, whether or not the page is full |
| `LogHandler.RunLaidOut` | jumpscale/core/logging/logging.py:161-182 | after any run the pages and the live list are laid out page by page |
| `LogHandler.NothingLost` | jumpscale/core/logging/logging.py:161-182 | pages in order followed by the live list are the whole log, and the live list has 1 to M records |
| `LogHandler.PageFiles` | jumpscale/core/logging/logging.py:134-182 | page file kM exists if and only if more than kM records were logged, holds ids (k-1)M+1 to kM, and there are no other files |
| `LogHandler.LookupExact` | jumpscale/core/logging/logging.py:198-223 | `record_get(i)` returns record i if and only if i is on the current page or its page ends at least M before the newest record |
| `LogHandler.Unreadable` | jumpscale/core/logging/logging.py:198-223 | the ids that cannot be read back are exactly those of the page before the current one, while the current one is partly full |
| `LogHandler.LookupBeyond` | jumpscale/core/logging/logging.py:211-212 | an id above the count answers nothing, with dumping on or off |
| `LogHandler.LookupWithoutDump` | jumpscale/core/logging/logging.py:208-223 | with dumping off `record_get(i)` returns record i if and only if i is on the current page, and nothing for a page that ended at least M records ago |
| `LogHandler.LookupWrong` | jumpscale/core/logging/logging.py:214-216 | what is answered for an unreadable id: the record M later, the newest one for the last id of the page, a TypeError when there is none |
| `LogHandler.AllReadable` | jumpscale/core/logging/logging.py:198-223 | every record can be read back if and only if M divides the count or the count is at most M |
| `LogHandler.LookupLive` | jumpscale/core/logging/logging.py:214-216 | on the current page the live list answers with the record |
| `LogHandler.LookupFile` | jumpscale/core/logging/logging.py:218-223 | on an old enough page the page file answers with the record |
| `LogHandler.LookupTooRecent` | jumpscale/core/logging/logging.py:214-216 | on a page that ended less than M records ago the answer is never the record |
| `Resp.ResponseEncoder.constructor` | jumpscale/servers/gedis/server.py:27-29 | nothing sent and an empty buffer |
| `Resp.ResponseEncoder.Encode` | jumpscale/servers/gedis/server.py:31-56 | everything buffered and the value's bytes have been sent in order and the buffer is empty, in spite of the flushes nested arrays make |
| `Resp.ResponseEncoder.EncodeAll` | jumpscale/servers/gedis/server.py:31-56 | a sequence of calls sends the encodings one after the other |
| `Resp.ResponseEncoder.WriteScalar` | jumpscale/servers/gedis/server.py:33-51 | each scalar branch writes its reply into the buffer |
| `Resp.ResponseEncoder.WriteList` | jumpscale/servers/gedis/server.py:46-49 | a leading marker is dropped, and sent and buffered bytes together grow by the array |
| `Resp.ResponseEncoder.Array` | jumpscale/servers/gedis/server.py:74-78 | header and items reach socket and buffer in order although each item flushes |
| `Resp.ResponseEncoder.Bulk` | jumpscale/servers/gedis/server.py:69-72 | text with its length in characters |
| `Resp.ResponseEncoder.BulkBytes` | jumpscale/servers/gedis/server.py:80-82 | bytes with their length |
| `Resp.ResponseEncoder.WriteText` | jumpscale/servers/gedis/server.py:84-88 | text is buffered as UTF-8 |
| `Resp.ResponseEncoder.Send` | jumpscale/servers/gedis/server.py:90-92 | the buffer is handed over and replaced |
| `Resp.Utf8Length` | jumpscale/servers/gedis/server.py:69-72 | the length in characters is the length in bytes exactly for ASCII text |
| `Resp.Utf8Newline` | jumpscale/servers/gedis/server.py:40-43 | text without a newline encodes without byte 10, so it cannot end its line early |
| `Resp.ReadHeader` | jumpscale/servers/gedis/server.py:69-82 | a reader sees the type character, the text and the rest of any header line |
| `Resp.ReadBlob` | jumpscale/servers/gedis/server.py:80-82 | bytes read back whole, whatever they contain |
| `Resp.ReadBulkText` | jumpscale/servers/gedis/server.py:69-72 | a bulk text reads back if it is ASCII and otherwise never as what it was |
| `Resp.ReadBool` | jumpscale/servers/gedis/server.py:35-38 | a boolean is no RESP2 reply |
| `Resp.ReadEncoded` | jumpscale/servers/gedis/server.py:31-56 | a value followed by anything reads as the value when it is faithful, and otherwise as nothing or another reply |
| `Resp.ReadEncodedItems` | jumpscale/servers/gedis/server.py:74-78 | the same for the items of an array |
| `Resp.ListArrives` | jumpscale/servers/gedis/server.py:46-49 | a list that does not begin with the marker arrives with every item in its place |
| `Resp.MarkedListArrives` | jumpscale/servers/gedis/server.py:46-49 | a list that begins with the marker arrives as its other items, each in its place |
| `Resp.Utf8Decodes` | jumpscale/servers/gedis/server.py:84-88 | every character is read back from its bytes by the rules of RFC 3629 |
| `Resp.Utf8Injective` | jumpscale/servers/gedis/server.py:84-88 | different texts have different bytes |
| `Resp.StreamRoundTrip` | jumpscale/servers/gedis/server.py:31-92 | for any sequence of values a RESP2 reader recovers exactly their meanings, lists item by item, if and only if every value is faithful |
| `Alerts.AlertsHandler.constructor` | jumpscale/tools/alerthandler/alerthandler.py:45-49 | an empty store |
| `Alerts.AlertsHandler.Get` | jumpscale/tools/alerthandler/alerthandler.py:60-84 | ValueError without an argument, NotFound or None when nothing is found, the id before the identifier |
| `Alerts.AlertsHandler.AlertRaise` | jumpscale/tools/alerthandler/alerthandler.py:144-199 | the store after a raise; the alert returned is the one stored |
| `Alerts.AlertsHandler.Save` | jumpscale/tools/alerthandler/alerthandler.py:209-219 | a new alert takes the next id; both hashes lead to it |
| `Alerts.AlertsHandler.Delete` | jumpscale/tools/alerthandler/alerthandler.py:221-236 | ValueError without an argument and nothing changed; otherwise the alert goes and its identifier entry stays |
| `Alerts.OneAlertEach` | jumpscale/tools/alerthandler/alerthandler.py:201-207 | the size of the hash, which `count` reads, is the number of identifiers reported since their alert was last removed |
| `Alerts.SharedIdentifier` | jumpscale/tools/alerthandler/alerthandler.py:4-5 | for an injective digest, two reports share an identifier if and only if their texts cut at colons give the same parts |
| `Alerts.KeptApart` | jumpscale/tools/alerthandler/alerthandler.py:4-5 | for an injective digest, a report shares its identifier with no report of other texts if and only if none of its texts has a colon |
| `Alerts.Merged` | jumpscale/tools/alerthandler/alerthandler.py:4-5 | for any digest, every report with a colon has another report with other texts and the same identifier |
| `Alerts.AlertsHandler.DeleteAll` | jumpscale/tools/alerthandler/alerthandler.py:238-241 | both hashes are empty, the counter stays |
| `Alerts.AlertsHandler.Reset` | jumpscale/tools/alerthandler/alerthandler.py:243-247 | everything is as at the start |
| `Alerts.RaiseConsistent` | jumpscale/tools/alerthandler/alerthandler.py:144-219 | a raise keeps the hashes consistent: keys are ids up to the counter, every alert is found by its identifier, no entry leads to an alert with another one |
| `Alerts.RaiseBalanced` | jumpscale/tools/alerthandler/alerthandler.py:144-219 | a raise adds one to the total, and the alert stored is the summary of its reports |
| `Alerts.DeleteBalanced` | jumpscale/tools/alerthandler/alerthandler.py:221-236 | a delete moves the alert's count from the stored to the removed ones and leaves at most a dangling entry |
| `Alerts.ApplyBalanced` | jumpscale/tools/alerthandler/alerthandler.py:144-247 | every operation keeps the hashes consistent and the books balanced |
| `Alerts.RunBalanced` | jumpscale/tools/alerthandler/alerthandler.py:144-247 | so does every run |
| `Alerts.FoundByIdentifier` | jumpscale/tools/alerthandler/alerthandler.py:60-84 | in every reachable state looking an identifier up finds an alert if and only if that alert is stored and has the identifier; a dangling entry never finds another |
| `Alerts.AlertIsItsReports` | jumpscale/tools/alerthandler/alerthandler.py:144-241 | in every reachable state an identifier finds the summary of the reports made under it since its alert was last removed: latest fields, first and last occurrence, count, status, traceback list; and nothing when there are none |
| `Alerts.RecordedStep` | jumpscale/tools/alerthandler/alerthandler.py:175-197 | one more report turns the summary of the reports before into that of all of them |
| `Alerts.FoundById` | jumpscale/tools/alerthandler/alerthandler.py:75-82 | in every reachable state a non-zero id finds exactly the alert stored under it, which has that id |
| `Alerts.IdsNotReused` | jumpscale/tools/alerthandler/alerthandler.py:209-241 | while there is no reset, an id handed out stands for one identifier and is not used again once its alert is gone, also after all alerts are deleted |
| `Alerts.CounterAfter` | jumpscale/tools/alerthandler/alerthandler.py:209-247 | a new alert takes the next id, a known one none; deleting keeps the counter and only reset starts it again |
| `Alerts.JoinFive` | jumpscale/tools/alerthandler/alerthandler.py:4-5 | the text digested is the five texts in order with colons between them |
| `Alerts.DistinctIdentifiers` | jumpscale/tools/alerthandler/alerthandler.py:172-219 | stored alerts have distinct identifiers, are keyed by their id, and ids are between 1 and the counter |
| `Alerts.EveryRaiseCounted` | jumpscale/tools/alerthandler/alerthandler.py:190 | stored counts plus removed counts are the number of raises in the run |
| `Alerts.StatusFollowsCount` | jumpscale/tools/alerthandler/alerthandler.py:175-190 | an alert is new exactly when its count is 1 and open otherwise |
| `Alerts.WindowIsSuffix` | jumpscale/tools/alerthandler/alerthandler.py:193-197 | the kept list is the end of the history |
| `Alerts.KeptCount` | jumpscale/tools/alerthandler/alerthandler.py:193-197 | it has six entries and one more for each raise after the sixth without a traceback |
| `Alerts.LastSixKept` | jumpscale/tools/alerthandler/alerthandler.py:193-197 | the kept tracebacks are the last six raises' if and only if every raise after the sixth carried one |
| `ConfigStore.EncryptedConfigStore.constructor` | jumpscale/core/base/store.py:115-123 | nothing is stored |
| `ConfigStore.EncryptedConfigStore.ProcessConfig` | jumpscale/core/base/store.py:131-150 | the recursive loop computes the processed config, errors included |
| `ConfigStore.EncryptedConfigStore.ProcessEntry` | jumpscale/core/base/store.py:140-149 | one entry is encrypted, decrypted and renamed, descended into or kept; a value under a hidden name that is no string is refused |
| `ConfigStore.EncryptedConfigStore.Save` | jumpscale/core/base/store.py:167-178 | the encrypted config is written under the name; nothing is written when encrypting fails |
| `ConfigStore.EncryptedConfigStore.Get` | jumpscale/core/base/store.py:152-162 | the stored config decrypted |
| `ConfigStore.Base.constructor` | jumpscale/core/base/meta.py:79-94 | a new object has its class's defaults |
| `ConfigStore.ToRaw` | jumpscale/core/base/fields.py:326-444 | the raw data of a validated value; AttributeError exactly when an enum in it is None |
| `ConfigStore.ListToRaw` | jumpscale/core/base/fields.py:380-393 | the raw data of each item in order; AttributeError exactly when some item cannot be serialised |
| `ConfigStore.GetData` | jumpscale/core/base/meta.py:105-119 | one entry per field in order, secrets under a prefixed name; AttributeError exactly when an enum at any depth or in a list is None |
| `ConfigStore.Base.CollectData` | jumpscale/core/base/meta.py:105-119 | the same for the object's own attributes |
| `ConfigStore.Base.AssignData` | jumpscale/core/base/meta.py:121-129 | fields named in the data are set, all others stay |
| `ConfigStore.ProcessedEach` | jumpscale/core/base/store.py:131-150 | entries that come out under different names are processed one by one, none overwriting another |
| `ConfigStore.EncryptData` | jumpscale/core/base/store.py:139-149 | encrypting never fails on an object's data and gives the written data: each set secret outside lists is its ciphertext, at every depth of nested objects, and everything else is as it was, secrets in lists included |
| `ConfigStore.DecryptData` | jumpscale/core/base/store.py:139-143 | decrypting what was written gives the data back with secrets under their own names |
| `ConfigStore.FromToRaw` | jumpscale/core/base/fields.py:326-460 | what a value becomes by `to_raw` and `from_raw` alone: itself, except that objects lose their secrets and a None list is empty |
| `ConfigStore.FromGetData` | jumpscale/core/base/meta.py:105-129 | the same for all fields of an object |
| `ConfigStore.FromPlainData` | jumpscale/core/base/meta.py:121-129 | filling a new object with the loaded data restores each attribute; a secret saved as None takes its default, and a None list is empty |
| `ConfigStore.ListedIsSame` | jumpscale/core/base/fields.py:380-408 | inside a list a value is restored if and only if the secrets of its objects have their defaults and no list in it is None |
| `ConfigStore.RestoredIsSame` | jumpscale/core/base/fields.py:326-352 | outside lists a value is restored if and only if no None secret has another default, no list is None and its items are restored |
| `ConfigStore.SaveLoad` | jumpscale/core/base/store.py:131-178 | for every validated object: saving and loading fails if and only if an enum in it is None, and restores the object if and only if, besides, no list is None and no secret is lost |
| `ConfigStore.NoneEnumFails` | jumpscale/core/base/store.py:139-149 | for every class with an enum that is not required and every valid object of it, None in the enum is valid too and saving fails |
| `ConfigStore.AlwaysRestored` | jumpscale/core/base/store.py:131-178 | every validated object of a class survives saving and loading if and only if secrets outside lists are required or default to None, enums and lists are required, and list items hold no objects with secrets |
| `ConfigStore.SafeClassIsSafe` | jumpscale/core/base/meta.py:105-129 | every object of such a class can be serialised and loses nothing |
| `ConfigStore.LosingListed` | jumpscale/core/base/fields.py:380-408 | for every other list item type, a valid item that fails to be saved or is not restored |
| `ConfigStore.LosingObject` | jumpscale/core/base/meta.py:105-129 | for every other class, a valid object that fails to be saved or is not restored |
| `ConfigStore.SaveEnds` | jumpscale/core/base/factory.py:143-145 | saving is refused by validation if and only if a value violates its field, at any depth: None where required or for an object, or a value not of the type; it fails if and only if besides some enum is None |
| `ConfigStore.TypedOrViolates` | jumpscale/core/base/fields.py:101-158 | the values validation accepts are exactly those that violate nothing |
| `ConfigStore.SerialisableOrNone` | jumpscale/core/base/fields.py:434-444 | a valid value cannot be serialised if and only if it holds a None enum |
| `ConfigStore.RawScalars` | jumpscale/core/base/fields.py:180-234 | the texts and numbers boolean and integer fields take for a value, and exactly which texts they take |
| `ConfigStore.RawOthers` | jumpscale/core/base/fields.py:338-460 | empty and zero raw values are empty lists, exactly the member values are enum members, and only dicts are objects |
| `ConfigStore.HiddenExactly` | jumpscale/core/base/store.py:140 | the names encrypted are exactly those that begin with two underscores |
| `ConfigStore.UnhiddenExactly` | jumpscale/core/base/store.py:142 | on loading all leading underscores go and nothing else |
| `ConfigStore.SaveInstance` | jumpscale/core/base/factory.py:143-145 | ValidationError for an invalid instance, AttributeError for one that cannot be serialised, nothing written in either case; otherwise its file holds exactly the encrypted data |
| `ConfigStore.SecretsHidden` | jumpscale/core/base/store.py:139-149 | for a class without secrets in lists: two objects that differ only in set secrets whose ciphertexts agree are written as the same file |
| `ConfigStore.Confidential` | jumpscale/core/base/store.py:139-149 | that holds for all such pairs of objects of a class if and only if no list of the class, at any depth, holds secrets |
| `ConfigStore.LeakingItem` | jumpscale/core/base/store.py:139-149 | for every list item type with a secret, two items that differ only in a secret and have different raw data |
| `ConfigStore.LeakingObject` | jumpscale/core/base/store.py:139-149 | for every class with secrets in a list, two objects that differ only in a secret, with agreeing ciphertexts under keys that decrypt, and different files |
| `ConfigStore.LoadInstance` | jumpscale/core/base/factory.py:177-180 | an instance loaded from a saved file has the saved attributes if and only if none of its secrets is lost and no list is None |
| `SchemaText.NormalizeString` | jumpscale/data/schema/schema.py:24-57 | the scan of the stripped text with its comment and string flags |
| `SchemaText.Idempotent` | jumpscale/data/schema/schema.py:24-57 | normalising twice is normalising once |
| `SchemaText.ScanAgain` | jumpscale/data/schema/schema.py:39-57 | from equal flags a second scan keeps everything the first one kept |
| `SchemaText.SameFlags` | jumpscale/data/schema/schema.py:39-50 | the flags after what was kept are the flags after the whole text, so each kept character is judged the same again |
| `SchemaText.NormalizedIsTrimmed` | jumpscale/data/schema/schema.py:33 | the result has no space at either end |
| `SchemaText.NoBlankLines` | jumpscale/data/schema/schema.py:54-55 | no two newlines in the result are adjacent |
| `SchemaText.OnlyBlanksAndNewlinesGo` | jumpscale/data/schema/schema.py:39-57 | the result is a subsequence of the stripped text with the same characters but blanks, and a line break exactly where the stripped text has one or more |
| `SchemaText.ScanTight` | jumpscale/data/schema/schema.py:52-53 | no blank is left outside comments and strings |
| `SchemaText.AllBlanksGo` | jumpscale/data/schema/schema.py:24-57 | the result has no blank if and only if every blank of the stripped text lies outside comments and strings |
| `SchemaText.QuoteInComment` | jumpscale/data/schema/schema.py:40-53 | after a comment with a single quote the next line keeps its blanks, for every such text |
| `SchemaText.NormalForms` | jumpscale/data/schema/schema.py:24-57 | a text is left as it is if and only if it has no space at its ends, no blank outside comments and strings and no blank line |
| `SchemaText.Verbatim` | jumpscale/data/schema/schema.py:40-53 | a stretch inside a comment or string comes through unchanged, blanks included |
| `SchemaText.LastKept` | jumpscale/data/schema/schema.py:52-56 | a text ending in a non-space keeps its last character |
| `SchemaText.StripsSpace` | jumpscale/data/schema/schema.py:33 | every text is white space, the stripped text and white space |
| `SchemaText.StripIs` | jumpscale/data/schema/schema.py:33 | a trimmed text with white space around it is stripped to that text |
| `SchemaText.SpaceListed` | jumpscale/data/schema/schema.py:33 | the white space characters, one by one |
| `SchemaText.SpaceAround` | jumpscale/data/schema/schema.py:24-57 | white space around a definition makes no difference to the result |
| `SchemaText.CommentExactly` | jumpscale/data/schema/schema.py:40-43 | after any text the scanner is in a comment if and only if there is a # with no newline after it |
| `SchemaText.StringSpan` | jumpscale/data/schema/schema.py:44-49 | outside strings, either quote begins one that lasts to the next quote of the same kind |
| `SchemaText.NoQuotes` | jumpscale/data/schema/schema.py:44-49 | without quotes no string begins or ends |
| `SchemaText.StripTrims` | jumpscale/data/schema/schema.py:33 | stripping leaves no space at the ends and changes nothing that has none |

## Left out

- Bcdb.IndexIsSound: only for truthy values; for falsy ones `Bcdb.StaleEntry` shows it fails.
- Bcdb.BCDB.GetItemFromIndexSet, ScanRange, GetRange, RowsInRange: bounds whose type is not the property's are not modelled; the scan raises TypeError there and SQLite compares by storage class.
- Bcdb.BCDB.StoreObj: a range-indexed integer outside 64 bits, for which SQLite raises before anything is written, is not modelled.
- Bcdb.BCDB.GetEntry: a value whose type is not the property's is not modelled; Python and SQLite compare such values in their own ways.
- Bcdb.BCDB.SaveObj: objects with an id the counter has not handed out, such as 0 or one the caller assigned, are not modelled.
- Bcdb.BCDB.GetKeysInModel: the duplicates a Redis `SCAN` may report while keys change are not modelled.
- Bcdb.BCDB.SetFromDict: only Integer and String properties; stored booleans and lists are refused on reload, and floats sort as text in SQLite.
- Bcdb.Run: saves of one client one after the other; the code has no transaction. One model is kept in a store.
- LogHandler.RedisLogHandler.Handle: the rounding of `math.ceil(identifier / max_size)` for ids beyond 2^53, page size 0 and interleaved writers are not modelled; a record is its id and message.
- LogHandler.RedisLogHandler.RecordGet: what is answered for ids below 1, which are never given, is computed but nothing is proved about it.
- LogHandler.RedisLogHandler.RemoveAllRecords: does not model the error of removing a directory that is not there.
- Resp.ResponseEncoder.Encode: unpaired surrogates, which `encode()` refuses, and subclasses of the built-in types are not modelled; any other object is its `repr`, so the JSON branch, which no Python object reaches, is not.
- Mnemonic.KeyToMnemonic: word lists of other than 2048 words are not modelled for writing, nor is random key generation.
- Mnemonic.WordIndex: the list must be sorted; duplicates are allowed here but not in the round trip.
- ConfigStore.FromToRaw: enum members whose value is a dict, or equal in Python across types (`1` and `True`), and member values that JSON changes are not modelled.
- ConfigStore.EncryptedConfigStore.Save: JSON and the stores behind it are maps; keys inside free-form dict values and the layout in files or Redis are not modelled.
- ConfigStore.SaveInstance: of validation, types and `required` are modelled; minimum, maximum length and extra validators, which accept fewer values, are not.
- ConfigStore.ToRaw: a list field holding another iterable, such as a tuple or a string, which validation lets through although the field asks for a list, is not modelled; it would come back as a list.
- ConfigStore.LoadInstance: objects shared as defaults between instances and factories nested in instances are not modelled.
- Alerts.AlertsHandler.AlertRaise: `data` and `event`, which no operation uses, are left out, and the clock is one parameter where the code may read it twice.
- Alerts.StatusFollowsCount: no operation closes an alert, so the closed and reopened states never occur in a run.
- TreeManager.Tree.SearchCustom: the order of siblings and a predicate that changes the tree are not modelled; it may depend on the node alone.
- TreeManager.Tree.RemoveNode: nodes that are not in the tree, nodes already removed and direct use of `TreeNode` are not modelled.
- CommandQuoting.Args2Sh: the line is read as arguments; that a first word with an equals sign is an assignment to a shell, and aliases, are not modelled.
- CommandQuoting.Args2Cmd: the `sep` argument, which the source ignores here and in `_args2sh`, is not modelled, and how `cmd.exe` or the runtime treats the program name is not modelled; all arguments follow the same rules.
- The text index of BCDB: the answers of the Sonic engine have no definition to compare with.
- `status` and `error` of the encoder, `find` of the alerts, `tail` of the logs and the printing of trees: one-line writes and filters.
- The rest of schema parsing, factories, locations, the other field types, and all clients, shells and process wrappers: input and output, or one-step wrappers.
