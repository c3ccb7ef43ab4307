# Verified models of SWC-DB algorithms

SWC-DB is a wide-column database written in C++. This project models the small stateful
algorithms of its core, of its managers and of its load generator in Dafny, and proves what
they are for. Check everything with `dafny verify dfyconfig.toml`.

## The parts

**Chunked cell container** (`Vector.dfy`, `Chunks.dfy`, `VectorsVector.dfy`). Cells are kept in a
vector of bounded vectors. An iterator inserts and removes in place: it cuts a full chunk in
two, drops chunks that become empty and removes runs across chunks. The classes are proved
against edits of a *place* (chunks, chunk index, offset), and the edits are proved to be those
of one flat sequence. The vector underneath is a growable buffer over an array.

**Load-generator keys** (`FractionStates.dfy`, `KeyGenerators.dfy`, `KeyRuns.dfy`, `Decimal.dfy`).
A counter for every key fraction, six courses of moving them, and the number of keys that the
tool asserts at the end of a run. The keys are all different exactly when the step is not 0
and does not overflow the machine word early; counters wrap as `size_t` does.

**Manager roles** (`MngrRoles.dfy`, `MngrTurns.dfy`, `MngrCfg.dfy`, `MngrChain.dfy`,
`MngrRole.dfy`). Managers pass a message around with the state of every manager and elect an
active one for each role and range of columns. What a message or a configuration makes of each
host is said in its fields as well. The model has the six states of `DB/Types/MngrState`, and tells copies of hosts in a
message from a manager's own objects, which change while the message is taken in.

**Column loading** (`ColumnsLoad.dfy`, `MngdColumns.dfy`, `ActionQueue.dfy`). The manager of the
schemas announces all columns in batches to the managers of column groups, which count what
is still expected; the counter is of 64 bits and its largest value means "not known yet".
Requests that change columns go through a queue whose first pusher starts its only runner.

**Health checks** (`HealthChecks.dfy`, `ColumnHealthCheck.dfy`). Up to ten checks a ranger are in
flight, the rest is queued, and an atomic counter tells the last finisher.

**Rangers** (`Rangers.dfy`, `RangersResources.dfy`). Giving out ids, picking a ranger for a range,
and turning resource reports into load scales and a shared-out budget, with the products of
32 bits written out.

**Ids in the file system** (`StructuredIds.dfy`). The id 123456 is the directory `123/456g`; a walk
reads the ids back and pruning removes directories that are left empty. The file system is a
set of paths, which are lists of names.

**Bytes** (`Checksum.dfy`, `Comparators.dfy`, `Serialization.dfy`). Fletcher-32 with its delayed
modulo, byte-string orders and containments, and the variable-length integer codecs with the
Python package's decoder.

`Common.dfy` has an option type and facts about sequences and arithmetic.

Where several threads take part (health checks, the action queue, column loading, manager
roles), a run is a sequence of states that follow from each other by events, and lemmas about
runs hold for every order of the events. In the first three, each event is what the program
does under one lock or in one atomic operation, with two exceptions: a checker is opened under
two locks, and a batch of columns is taken in under one while each column is looked up under
another, which `ListedBetween` shows to make no difference. A column is put on the list,
initialised and taken off again in events of their own. In `MngrRoles.RunSound` a whole message
is one event, although the program gives up its lock between looking up a host and setting it;
`WritesExact` is about any interleaving of what is set, and `LookedTooEarly` says when two
messages break what one at a time keeps. The methods of the classes are proved to make just
these steps.

Results that say the program does not do what one may expect, with the condition that decides:

- `NoneAfterEnd`: a generator that begins again after its end.
- `ForwardOverflows` and `LastSumOverflows`, and `SteppingEnumerates`, `SteppingDistinct` and
  `KeysDistinct`: a step too large for the word.
- `DisagreementBreaks`, and `NominateExact`: two active managers when a message groups hosts
  differently.
- `TwoClaims`, and `LookedTooEarly` and `WritesExact`: two active managers when two messages
  are taken in at a time.
- `OtherAddressDeposes`, and `DisconnectedDeposes` and `DisconnectedLeaves`: a lost connection
  can depose a manager, or leave a lost one as it is, when managers go by two addresses.
- `FourthDisagrees`, and `LeadAround` and `AroundExact`: managers hold different active hosts
  after a token went around.
- `SecondRoundTooEarly`, and `RoundStarts`: columns counted as loaded.
- `ReadyWithout`, and `ReadyWhenLoaded`: ready without a column that could not be initialised.
- `LeavingKeepsOthersOut`, and `EligibleExact`: a leaving ranger keeps a range unassigned.
- `MoreMemIsFreer` and `MoreCpuIsFreer`, and `MoreRangesIsBusier`: a product wraps in 32 or 64 bits.
- `EqualEndpointsExact`: other endpoints pass for those of which one is named twice.
- `MissesLaterOccurrence`, and `FoSbs`: an ordered subset that is not seen.
- `LengthsFixed`: one byte more than announced.
- `StraysOnZero` and `StraysExact`: bytes read that were not made sure of.
- `DecodeBoth`: bytes that one decoder takes and the other refuses.

## Model

| member | source | states |
|---|---|---|
| Vectors.Vector.Reserve | src/cc/include/swcdb/core/Vector.h:287-291 | the capacity becomes what is asked for and the contents stay |
| Vectors.Vector.ReserveOne | src/cc/include/swcdb/core/Vector.h:293-304 | there is room for one more unless the size type is exhausted |
| Vectors.Vector.PushBack | src/cc/include/swcdb/core/Vector.h:329-344 | appends to the contents |
| Vectors.Vector.Insert | src/cc/include/swcdb/core/Vector.h:365-389 | the contents become old[..offset] + [x] + old[offset..], in place or in a new buffer; a full size type is an error and changes nothing |
| Vectors.Vector.InsertRange | src/cc/include/swcdb/core/Vector.h:412-447 | the contents become old[..offset] + run + old[offset..]; more than the size type can count is an error and changes nothing |
| Vectors.Vector.AllocateInsert | src/cc/include/swcdb/core/Vector.h:550-602 | a new buffer has the elements with a gap at the offset |
| Vectors.Vector.Assign | src/cc/include/swcdb/core/Vector.h:450-460 | the contents become the given elements |
| Vectors.Vector.Erase | src/cc/include/swcdb/core/Vector.h:463-483 | the contents lose the element at the offset; past the end nothing changes |
| Vectors.Vector.EraseRange | src/cc/include/swcdb/core/Vector.h:485-503 | the contents lose a run |
| Chunks.InsertedMeans | src/cc/include/swcdb/core/VectorsVector.h:468-498 | inserting at a place puts the element at its position of the flat sequence and stays on it; chunks stay bounded and none becomes empty |
| Chunks.EnsuredMeans | src/cc/include/swcdb/core/VectorsVector.h:481-498 | cutting a full chunk changes neither the flat sequence nor the position, nor whether the place is on an element |
| Chunks.EnsuredShape | src/cc/include/swcdb/core/VectorsVector.h:481-498 | a cut leaves two bounded chunks that are not empty, and room at the place |
| Chunks.RemovedMeans | src/cc/include/swcdb/core/VectorsVector.h:500-509 | removing takes just the element at the position out of the flat sequence and stays |
| Chunks.RemovedShape | src/cc/include/swcdb/core/VectorsVector.h:500-509 | after it no chunk is empty unless it is the only one, which stays, and the place is on an element or at the end |
| Chunks.RemovedManyMeans | src/cc/include/swcdb/core/VectorsVector.h:511-538 | removing a number chunk by chunk is old[..p] + old[min(p+n, len)..] of the flat sequence, and the place stays at p |
| Chunks.RemovedManyShape | src/cc/include/swcdb/core/VectorsVector.h:511-538 | it keeps chunks bounded and not empty, one at least, and leaves the place on an element, at a first element or at the end |
| Chunks.RemovedManyAtElement | src/cc/include/swcdb/core/VectorsVector.h:511-538 | the iterator says that it is on an element exactly when one is left at its position |
| Chunks.AtElementIffBeforeEnd | src/cc/include/swcdb/core/VectorsVector.h:439-442 | in a list without empty chunks, being on an element is being before the end |
| Chunks.SplitMeans | src/cc/include/swcdb/core/VectorsVector.h:658-674 | splitting and adding lists of chunks splits and joins their flat sequences |
| Chunks.TightConcat | src/cc/include/swcdb/core/VectorsVector.h:658-665 | joining keeps the list free of empty chunks exactly when no lone empty chunk meets another |
| ChunkedContainer.VectorsVector.SplitChunk | src/cc/include/swcdb/core/VectorsVector.h:481-488 | a full chunk is cut in place at the split size |
| ChunkedContainer.VectorsVector.Ensure | src/cc/include/swcdb/core/VectorsVector.h:635-642 | the last chunk has room; an empty one is put behind it exactly when it is full or there is none |
| Chunks.PushedMeans | src/cc/include/swcdb/core/VectorsVector.h:635-655 | appending to the last chunk, or to a new one behind a full one, appends to the flat sequence; chunks stay bounded and none becomes empty |
| ChunkedContainer.VectorsVector.PushBack | src/cc/include/swcdb/core/VectorsVector.h:645-655 | the chunks become those of appending an element |
| ChunkedContainer.VectorsVector.Count | src/cc/include/swcdb/core/VectorsVector.h:600-605 | counts the elements of the flat sequence |
| ChunkedContainer.VectorsVector.Index | src/cc/include/swcdb/core/VectorsVector.h:628-632 | the element at a flat position, or none exactly past the end or where an empty chunk starts |
| Chunks.FirstAtElement | src/cc/include/swcdb/core/VectorsVector.h:424-442 | the place that is looked up is on an element exactly when the position is not past the end and no empty chunk starts there |
| ChunkedContainer.VectorsVector.Add | src/cc/include/swcdb/core/VectorsVector.h:658-665 | takes all chunks of another container, which is left empty |
| ChunkedContainer.VectorsVector.Split | src/cc/include/swcdb/core/VectorsVector.h:668-674 | gives the chunks from one on to another container |
| ChunkedContainer.Iterator.At | src/cc/include/swcdb/core/VectorsVector.h:401-437 | goes to a flat position, or to the end |
| ChunkedContainer.Iterator.Next | src/cc/include/swcdb/core/VectorsVector.h:444-449 | goes to the next flat position |
| ChunkedContainer.Iterator.Ensure | src/cc/include/swcdb/core/VectorsVector.h:480-498 | the place becomes the cut place |
| ChunkedContainer.Iterator.Insert | src/cc/include/swcdb/core/VectorsVector.h:468-478 | chunks and place become those of an insertion |
| ChunkedContainer.Iterator.Remove | src/cc/include/swcdb/core/VectorsVector.h:500-509 | chunks and place become those of a removal |
| ChunkedContainer.Iterator.RemoveMany | src/cc/include/swcdb/core/VectorsVector.h:511-538 | chunks and place become those of removing a number of elements |
| FractionStates.FractionState.SetValue | src/cc/bin/swcdb/utils/load_generator.cc:314-372 | one move of a sequential or stepping counter in words of 64 bits |
| FractionStates.SequentialCycle | src/cc/bin/swcdb/utils/load_generator.cc:322-331 | a sequential counter gives 1 to n in order, or down, again and again |
| FractionStates.UpEnumerates | src/cc/bin/swcdb/utils/load_generator.cc:349-367 | stepping up without overflow, the first n values are 1 to n, each once, for every step |
| FractionStates.ReverseMirrorsUp | src/cc/bin/swcdb/utils/load_generator.cc:349-358 | stepping down is the mirror image of stepping up |
| FractionStates.ForwardOverflows | src/cc/bin/swcdb/utils/load_generator.cc:359-365 | when a step above n overflows, value 2^64 - step + 1 is 0 |
| FractionStates.SteppingEnumerates | src/cc/bin/swcdb/utils/load_generator.cc:336-372 | the first n values of the program's counter are 1 to n, each once, exactly when the step is not 0 and, stepping up, no sum overflows, which is n + step below 2^64, or at it when the step is above n or divides n + 1 |
| FractionStates.LastSumOverflows | src/cc/bin/swcdb/utils/load_generator.cc:359-365 | when n + step is 2^64 and the step neither above n nor a divisor of n + 1, the value after n is 0 |
| FractionStates.SmallInReach | src/cc/bin/swcdb/utils/load_generator.cc:359-365 | with less than 2^63 cells no counter is left out, and no sum overflows exactly when n + step is at most 2^64 |
| FractionStates.SteppingDistinct | src/cc/bin/swcdb/utils/load_generator.cc:336-372 | they are all different exactly when the step is not 0, or n is 1, and the overflow, if any, leaves at most one value after it |
| FractionStates.SequentialEnumerates | src/cc/bin/swcdb/utils/load_generator.cc:314-331 | the first n values of a sequential counter are 1 to n, each once |
| KeyGenerators.KeyGenerator.Make | src/cc/bin/swcdb/utils/load_generator.cc:400-454 | refuses just the four cases in which the constructor throws, and makes a generator where there is anything to generate |
| KeyGenerators.KeyGenerator.NextNFraction | src/cc/bin/swcdb/utils/load_generator.cc:458-516 | one call, for each of the six courses, moves the counters and tells whether there is a key |
| KeyRuns.ExactCount | src/cc/bin/swcdb/utils/load_generator.cc:400-516 | there is a key at every call up to ncells * nfractions * onlevel (ncells for SINGLE and R_SINGLE) and none at the next |
| KeyRuns.NoneAfterEnd | src/cc/bin/swcdb/utils/load_generator.cc:458-516 | no later call gives a key either, exactly when the course is not R_LEVELS or there is one fraction |
| KeyRuns.KeyFractions | src/cc/bin/swcdb/utils/load_generator.cc:458-516 | every fraction of every key up to the total is the value of its own turn in the enumeration: with a step, the last is at its level of the cell, and those before it are at the end of the cell, or at its begin going down |
| KeyRuns.SequentialValues | src/cc/bin/swcdb/utils/load_generator.cc:322-331 | the sequential values are the numbers in order, or downwards by the courses that go down |
| KeyRuns.KeysDistinct | src/cc/bin/swcdb/utils/load_generator.cc:400-516 | no two keys of a run are the same, exactly when the step fits |
| KeyRuns.KeyTextsDistinct | src/cc/bin/swcdb/utils/load_generator.cc:551-569 | keys are written alike, with fractions padded with zeros, exactly when they are the same |
| KeyRuns.KeyTextReads | src/cc/bin/swcdb/utils/load_generator.cc:551-569 | each fraction is written as digits that read as it, filled up with zeros just to the size |
| Decimal.PaddedInjective | src/cc/bin/swcdb/utils/load_generator.cc:557-563 | different numbers have different texts however far they are padded |
| Decimal.PaddedReads | src/cc/bin/swcdb/utils/load_generator.cc:557-563 | the text of a number reads as it, is at least as long as asked for, and begins with a zero only to be that long, or for zero |
| MngrRole.MngrRole.UpdateState | src/cc/lib/swcdb/manager/MngrRole.cc:534-554 | every host with one of the endpoints gets the state, and nothing else changes |
| MngrRole.MngrRole.GetHost | src/cc/lib/swcdb/manager/MngrRole.cc:556-564 | the first host with one of the endpoints |
| MngrRole.MngrRole.GetHighestStateHost | src/cc/lib/swcdb/manager/MngrRole.cc:566-576 | the first host of the group in the highest state |
| MngrRole.MngrRole.IsGroupOff | src/cc/lib/swcdb/manager/MngrRole.cc:578-588 | whether all hosts of the group are off |
| MngrRole.MngrRole.DecideState | src/cc/lib/swcdb/manager/MngrRole.cc:147-216 | which state a listed host is to get, if any, as `ListedTurn` says in states and priorities |
| MngrRole.MngrRole.DecideToStepUp | src/cc/lib/swcdb/manager/MngrRole.cc:218-237 | when the local manager steps up for a group that is off |
| MngrRole.MngrRole.FillStates | src/cc/lib/swcdb/manager/MngrRole.cc:142-265 | a message takes in all listed hosts in turn, and then looks for groups that are off; it goes on along the chain unless it came around |
| MngrRole.MngrRole.Disconnection | src/cc/lib/swcdb/manager/MngrRole.cc:285-317 | hosts with the address of a lost connection go off, when the host that it is known by is found and not active; the address is forgotten |
| MngrRole.MngrRole.UpdateManagerAddr | src/cc/lib/swcdb/manager/MngrRole.cc:267-283 | keeps the first address that a manager called itself by, and says once that there was a new connection |
| MngrRole.MngrRole.ApplyCfg | src/cc/lib/swcdb/manager/MngrRole.cc:359-398 | a configuration gives the hosts it knows their priorities, adds those it does not know, and drops those that are not configured |
| MngrCfg.EntryLaw | src/cc/lib/swcdb/manager/MngrRole.cc:363-382 | an entry gives its place as priority to the first host that it names, or adds a host of its group that is not set |
| MngrCfg.AppliedAre | src/cc/lib/swcdb/manager/MngrRole.cc:359-396 | after a configuration every host is named by an entry, and was there with the same state and endpoints or is made of an entry; a changed priority is the place of an entry that names it |
| MngrCfg.AppliedAll | src/cc/lib/swcdb/manager/MngrRole.cc:359-396 | every host that an entry names is still there, and every entry names one |
| MngrRole.MngrRole.ManagerChecker | src/cc/lib/swcdb/manager/MngrRole.cc:514-532 | a manager that cannot be reached is off and the next is tried, unless it is active and may still fail, and then it stays as it is |
| MngrRoles.FilledSafe | src/cc/lib/swcdb/manager/MngrRole.cc:142-237 | a whole message keeps at most one active host for a role and range, and takes ACTIVE only from hosts that it lists below STANDBY |
| MngrTurns.ListedTurn | src/cc/lib/swcdb/manager/MngrRole.cc:147-216 | at its turn a host listed below STANDBY goes where it is listed, or stays when that is NOTSET; our own is revived when the message starts here; otherwise the first host in the highest state of the group decides, by states and priorities; nothing else changes |
| MngrTurns.StepUpTurn | src/cc/lib/swcdb/manager/MngrRole.cc:218-237 | our own hosts want to be active exactly when all of the group are off, another host with one of our endpoints is configured for it, and nobody of our own group wants to be active or is |
| MngrTurns.ListedDown | src/cc/lib/swcdb/manager/MngrRole.cc:142-237 | a whole message leaves a host that a copy lists below STANDBY there, or as it was when listed NOTSET, unless it is our own and wants to be active |
| MngrRoles.DisagreementBreaks | src/cc/lib/swcdb/manager/MngrRole.cc:147-216 | with a listed host that names two of ours, there can be two active ones |
| MngrRoles.NominateExact | src/cc/lib/swcdb/manager/MngrRole.cc:147-216 | agreed or not, a listed host taken in keeps one active host a group exactly when it is not to be active, or those it names are alone in that |
| MngrRoles.ActiveExact | src/cc/lib/swcdb/manager/MngrRole.cc:545-554 | making the hosts with some endpoints active keeps one active host a group exactly when no two of them are of one group and nobody else of theirs is active |
| MngrRoles.WritesExact | src/cc/lib/swcdb/manager/MngrRole.cc:534-554 | in whatever order states are set, and whatever was looked up before, one host a group is active all along exactly when each that is made active is alone in that at that moment |
| MngrRoles.LoneWhenAgreed | src/cc/lib/swcdb/manager/MngrRole.cc:534-554 | for a listed host that managers agree on, that is the case exactly when nobody else of its group is active |
| MngrRoles.LookedTooEarly | src/cc/lib/swcdb/manager/MngrRole.cc:142-216 | two listed hosts, both to be active by what was looked up before either was set, leave one active exactly when they do not name two hosts of a group |
| MngrRoles.TwoClaims | src/cc/lib/swcdb/manager/MngrRole.cc:142-216 | there are such messages, though the managers agree on groups |
| MngrRoles.NotedMeans | src/cc/lib/swcdb/manager/MngrRole.cc:267-297 | a server is looked up under the first address that it called itself by, or under its own when there is none |
| MngrRoles.DisconnectedMeans | src/cc/lib/swcdb/manager/MngrRole.cc:285-317 | a lost connection takes just the hosts off that have its address, and that if the first host of the address the server is known by is there and not active |
| MngrRoles.DisconnectedDeposes | src/cc/lib/swcdb/manager/MngrRole.cc:285-317 | which hosts a lost connection deposes: active ones with the server's address, when the host of its other address was found and is not active |
| MngrRoles.DisconnectedLeaves | src/cc/lib/swcdb/manager/MngrRole.cc:293-315 | a host that a lost connection is known by, and that is not active, is off afterwards exactly when it has the address of the connection itself, or was off |
| MngrRoles.OtherAddressDeposes | src/cc/lib/swcdb/manager/MngrRole.cc:285-317 | so, once a manager called itself by another address, an active host can be deposed by a lost connection |
| MngrRoles.DisconnectedSafe | src/cc/lib/swcdb/manager/MngrRole.cc:285-317 | a lost connection sets nobody active, and deposes nobody when the server is known by its own address |
| MngrRoles.HandledSound | src/cc/lib/swcdb/manager/MngrRole.cc:142-397 | messages, lost and failed connections and a new configuration keep one active host a group, and endpoints disjoint |
| MngrRoles.RunSound | src/cc/lib/swcdb/manager/MngrRole.cc:142-397 | in every run of such events, a message being one event, from an empty list on, at most one host is active for a role and range of columns |
| MngrRoles.OwnRoundAdvances | src/cc/lib/swcdb/manager/MngrRole.cc:142-237 | a message that a manager sends itself keeps who is active, and elects somebody or takes the favourite of a group one state up |
| MngrRoles.Election | src/cc/lib/swcdb/manager/MngrRole.cc:142-237 | a group whose favourite is up has an active host after three such messages, and from then on |
| MngrChains.ReceivedExact | src/cc/lib/swcdb/manager/MngrRole.cc:142-237 | a host that another manager lists active is so after the message exactly when nobody else of its group is active at its turn |
| MngrChains.AroundExact | src/cc/lib/swcdb/manager/MngrRole.cc:142-265 | the host that is active for the sender of a token is so for all managers when it came around a chain, exactly when that holds with each of them |
| MngrChains.LeadAround | src/cc/lib/swcdb/manager/MngrRole.cc:142-265 | if it is the first of its group, all managers then hold the same active host for the group exactly when none of the others held another one when it got the token, and then it is that host |
| MngrChains.FourthDisagrees | src/cc/lib/swcdb/manager/MngrRole.cc:210-215 | if it is the second, three managers that know of nobody active take the first host up in turn, and the last of them holds that one active |
| Checksum.Fletcher32 | src/cc/include/swcdb/core/Checksum.h:24-48 | for every length the checksum is that of the plain definition, and no sum of 32 bits overflows |
| Checksum.OneMoreByte | src/cc/include/swcdb/core/Checksum.h:24-48 | with one byte more, the sums grow by that byte when it begins a word, and otherwise by it and 255 times the byte before, which is then the high one |
| Checksum.NoBytes | src/cc/include/swcdb/core/Checksum.h:24-48 | of no bytes it is 0 |
| Checksum.DelayTight | src/cc/include/swcdb/core/Checksum.h:28-35 | whatever the data, the sums fit 32 bits for a number of words after a reduction exactly when there are at most 360 of them |
| Checksum.OneWordChange | src/cc/include/swcdb/core/Checksum.h:26-47 | a change of one word goes unseen exactly when the words are congruent modulo 65535 |
| Checksum.OneByteChange | src/cc/include/swcdb/core/Checksum.h:26-47 | no change of one byte goes unseen |
| Checksum.WordSwap | src/cc/include/swcdb/core/Checksum.h:26-47 | an exchange of two words goes unseen exactly when their distance times their difference is a multiple of 65535 |
| Checksum.AdjacentSwap | src/cc/include/swcdb/core/Checksum.h:26-47 | an exchange of adjacent words goes unseen exactly when they are congruent |
| StructuredIds.SetStructuredId | src/cc/lib/swcdb/fs/Interface.cc:494-505 | appends the names of nested directories of three digits, the last one marked |
| StructuredIds.PartsSpell | src/cc/lib/swcdb/fs/Interface.cc:494-505 | only the last name is marked, and without the mark the names spell the number |
| StructuredIds.PartsByThree | src/cc/lib/swcdb/fs/Interface.cc:494-505 | every name before the last has three digits, and the last one to three and the mark |
| StructuredIds.TextMeans | src/cc/lib/swcdb/fs/Interface.cc:494-505 | the text of a number has a slash after every three digits that are not the last, and ends with the mark |
| StructuredIds.GetStructuredIds | src/cc/lib/swcdb/fs/Interface.cc:141-179 | the walk returns the ids of exactly the marked directories below the base whose names spell a number, each directory once |
| StructuredIds.WalkOfTree | src/cc/lib/swcdb/fs/Interface.cc:141-179 | in a tree of ids it returns each of the ids once, and nothing else |
| StructuredIds.IdsApart | src/cc/lib/swcdb/fs/Interface.cc:494-505 | no id's directory is inside another's |
| StructuredIds.TreeOfOneMore | src/cc/lib/swcdb/fs/Interface.cc:494-505 | no file is in the way of a new id's directory, and with it there is the tree of one more id |
| StructuredIds.RmdirInclOptSubs | src/cc/lib/swcdb/fs/Interface.cc:261-287 | removes a directory and those above it that are left empty, up to the first that is not, or is not there, the directory to stop at or the top |
| StructuredIds.PruneOfTree | src/cc/lib/swcdb/fs/Interface.cc:261-287 | pruning an id leaves exactly what is on the way to, or in, the directories of the other ids, and all that is not below the base |
| StructuredIds.PrunedIsTree | src/cc/lib/swcdb/fs/Interface.cc:261-287 | after pruning an id the file system is the tree of the other ids |
| StructuredIds.RunKeepsTree | src/cc/lib/swcdb/fs/Interface.cc:261-287 | however ids are made and pruned, and whatever is put in their directories, the file system is the tree of those that are left |
| StructuredIds.RunWalked | src/cc/lib/swcdb/fs/Interface.cc:141-179 | from an empty base on, at any time a walk returns each id that was made and not pruned since, once, and nothing else |
| Decimal.StoullOfDigits | src/cc/lib/swcdb/fs/Interface.cc:160-164 | reading the decimal text of a number of 64 bits gives the number |
| Decimal.StoullUnsigned | src/cc/lib/swcdb/fs/Interface.cc:160-164 | digits behind spaces, up to the first other character, are read as their number when it is of 64 bits; a greater one is an error |
| Decimal.StoullSigned | src/cc/lib/swcdb/fs/Interface.cc:160-164 | so behind a plus; behind a minus the number counts down from 2^64; no digits are an error |
| HealthChecks.RefilledKeeps | src/cc/lib/swcdb/manager/ColumnHealthCheck.cc:54-64 | sending from the queue keeps the account, and ends with an empty queue or ten in flight; what is no longer queued was looked at, and sent just if it is still the ranger's |
| HealthChecks.AddedKeeps | src/cc/lib/swcdb/manager/ColumnHealthCheck.cc:96-111 | an added range is sent, or queued while ten are in flight |
| HealthChecks.NextSound | src/cc/lib/swcdb/manager/ColumnHealthCheck.cc:33-203 | every event keeps the counter equal to the initial token, the ranges in flight and those being handled, and no range waits while there is room |
| HealthChecks.RunSound | src/cc/lib/swcdb/manager/ColumnHealthCheck.cc:33-203 | in every interleaving of the events the counter is the initial token, the ranges in flight and those being handled; a range waits only while ten are in flight; and each ranger has one checker |
| HealthChecks.LastOnce | src/cc/lib/swcdb/manager/ColumnHealthCheck.cc:181-189 | the counter says last once in a run that comes to rest, not in one that has not, and nothing happens after |
| HealthChecks.NothingLeft | src/cc/lib/swcdb/manager/ColumnHealthCheck.cc:181-191 | when the counter says last, every range that was added was sent at once, or later just if it was still the ranger's, and all that were sent are answered |
| ColumnHealthChecks.CompletionCounter.IsLast | src/cc/include/swcdb/core/CompletionCounter.h:36-39 | gives up a token and tells whether it was the last |
| ColumnHealthChecks.RangerCheck.AddRange | src/cc/lib/swcdb/manager/ColumnHealthCheck.cc:96-111 | makes the step of adding a range, and the counter counts what is sent |
| ColumnHealthChecks.RangerCheck.Answer | src/cc/lib/swcdb/manager/ColumnHealthCheck.cc:57-68 | makes the step of an answer; what it says may be added would not have to wait |
| ColumnHealthChecks.ColumnHealthCheck.Answer | src/cc/lib/swcdb/manager/ColumnHealthCheck.cc:54-68 | an answer makes its step on the whole check; what may be added then fills the ranger's ten |
| ColumnHealthChecks.ColumnHealthCheck.Run | src/cc/lib/swcdb/manager/ColumnHealthCheck.cc:129-171 | a round is a run of events that adds the ranges in order, each to the one checker of its ranger: just those that are assigned to an acknowledged ranger, and all of them |
| ColumnHealthChecks.ReachedInRun | src/cc/lib/swcdb/manager/ColumnHealthCheck.cc:129-171 | what a round does goes on a run of events, so that all that holds in runs holds after it |
| ColumnHealthChecks.ColumnHealthCheck.Finishing | src/cc/lib/swcdb/manager/ColumnHealthCheck.cc:181-191 | a handler does one more round before it gives up its token; with the last one the checkers are dropped |
| ActionQueues.QueueSafe.PushAndIsFirst | src/cc/include/swcdb/core/QueueSafe.h:53-68 | appends, and tells whether the queue was empty |
| ActionQueues.QueueSafe.PopAndMore | src/cc/include/swcdb/core/QueueSafe.h:89-94 | drops the first, and tells whether there is more |
| ActionQueues.RunActions | src/cc/lib/swcdb/manager/MngdColumns.cc:901-985 | without pushes meanwhile the runner handles all requests in order and leaves the queue empty |
| ActionQueues.RunSound | src/cc/lib/swcdb/manager/MngdColumns.cc:238-247 | in every interleaving a runner is posted or at work exactly while the queue is not empty, never two, it never finds the front gone, and requests are handled once each in push order |
| ActionQueues.AllHandled | src/cc/lib/swcdb/manager/MngdColumns.cc:238-247 | when no runner is left all that was pushed was handled |
| ActionQueues.RunnerGoesOn | src/cc/lib/swcdb/manager/MngdColumns.cc:238-247 | a runner can take a step exactly while the queue is not empty |
| ActionQueues.RunnerNearer | src/cc/lib/swcdb/manager/MngdColumns.cc:901-985 | every step of a runner leaves one less to an empty queue, so nothing that was pushed waits forever |
| ColumnsLoads.ColumnsLoad | src/cc/lib/swcdb/manager/MngdColumns.cc:646-702 | the batching loop announces what the groups, in turn, take |
| ColumnsLoads.LoadGroup | src/cc/lib/swcdb/manager/MngdColumns.cc:656-699 | what is announced for one group, batch after batch |
| ColumnsLoads.BatchesAre | src/cc/lib/swcdb/manager/MngdColumns.cc:656-699 | the batches for a group announce its columns once and in order, all with the total, each of at most 1000 and only the last with fewer |
| ColumnsLoads.ToTheirGroup | src/cc/lib/swcdb/manager/MngdColumns.cc:656-699 | every column is announced to a group of columns, and is at or between its bounds |
| ColumnsLoads.AnnouncedPrefix | src/cc/lib/swcdb/manager/MngdColumns.cc:646-702 | for any groups, what is announced is a first part of the columns, each once |
| ColumnsLoads.AllAnnounced | src/cc/lib/swcdb/manager/MngdColumns.cc:646-702 | with the groups in order, all columns are announced exactly when each has a group |
| ColumnsLoads.AllWithinBounds | src/cc/lib/swcdb/manager/MngdColumns.cc:646-702 | with bounds that go up, all columns are announced exactly when each is at or between the bounds of some group of columns |
| ColumnsLoads.GroupIsTold | src/cc/lib/swcdb/manager/MngdColumns.cc:646-702 | each group is told its own columns in one go |
| ManagedColumns.MngdColumns.SetExpect | src/cc/lib/swcdb/manager/MngdColumns.cc:249-288 | the active manager of the group takes a batch into account, another passes it on, and the sender ignores one that came back |
| ManagedColumns.MngdColumns.ExpectedReady | src/cc/lib/swcdb/manager/MngdColumns.cc:156-159 | the manager is ready when nothing is expected |
| ManagedColumns.MngdColumns.InternalLoad | src/cc/lib/swcdb/manager/MngdColumns.cc:354-378 | a loaded column is no longer waited for; whether its ranges are to be assigned |
| ManagedColumns.MngdColumns.ChangeActive | src/cc/lib/swcdb/manager/MngdColumns.cc:193-222 | a change of the range of columns makes the count unknown |
| ManagedColumns.ExpectAllMeans | src/cc/lib/swcdb/manager/MngdColumns.cc:273-286 | each column of a batch is waited for or there, and the count less those waited for goes down by the batch, in 64 bits |
| ManagedColumns.ListedBetween | src/cc/lib/swcdb/manager/MngdColumns.cc:272-286 | a column put on the list or taken off it between two look-ups of a batch changes nothing but its own place before or after the batch |
| ManagedColumns.NotedMeans | src/cc/lib/swcdb/manager/MngdColumns.cc:354-370 | a loaded column leaves its place on the list, if it was waited for, and the count is one less, unless it is not known |
| ManagedColumns.RoundStarts | src/cc/lib/swcdb/manager/MngdColumns.cc:272-286 | the first batch makes the count right exactly when nothing is waited for, or the count was right already |
| ManagedColumns.RoundBegins | src/cc/lib/swcdb/manager/MngdColumns.cc:272-286 | from a count of 0 or not known, or with a total not known, and nothing waited for, a batch leaves the total less the batch and what of it is not there, and that is waited for; so the manager is ready exactly when the batch is the whole round and all there |
| ManagedColumns.RoundGoesOn | src/cc/lib/swcdb/manager/MngdColumns.cc:272-286 | a further batch takes just what of it is there already off the count |
| ManagedColumns.SecondRoundTooEarly | src/cc/lib/swcdb/manager/MngdColumns.cc:272-286 | a round begun while columns are waited for counts them as loaded |
| ManagedColumns.BatchesAreRound | src/cc/lib/swcdb/manager/MngdColumns.cc:646-702 | the batches announced for a group make such a round |
| ManagedColumns.RunSound | src/cc/lib/swcdb/manager/MngdColumns.cc:249-378 | in every interleaving of batches with columns put on the list, noted and taken off again, the count is what was not announced and what is waited for |
| ManagedColumns.ReadyWhenLoaded | src/cc/lib/swcdb/manager/MngdColumns.cc:156-159 | in every such interleaving the manager is ready exactly when all was announced and none is waited for, and then just those columns of the round are there that were not taken off |
| ManagedColumns.GetsReady | src/cc/lib/swcdb/manager/MngdColumns.cc:354-378 | once all was announced, making the columns that are waited for, one after the other, makes the manager ready with all of them there |
| ManagedColumns.ReadyWithout | src/cc/include/swcdb/manager/db/Columns.h:54-69 | a column announced while it is being initialised is not waited for, and when that fails the manager is ready without it |
| Rangers.Rangers.NextId | src/cc/lib/swcdb/manager/Rangers.cc:726-745 | the wished id if it is free, else the least free one, in at most two tries more than there are rangers |
| Rangers.Rangers.RgrSetId | src/cc/lib/swcdb/manager/Rangers.cc:201-204 | the first ranger with one of the endpoints keeps its id if it is acknowledged, and is replaced otherwise |
| Rangers.Rangers.RgrAckId | src/cc/lib/swcdb/manager/Rangers.cc:206-234 | acknowledges the ranger that has the id and an endpoint |
| Rangers.Rangers.RgrHadId | src/cc/lib/swcdb/manager/Rangers.cc:236-250 | zero when the first ranger with that id has one of the endpoints; otherwise the ranger gets an id, not another's |
| Rangers.Rangers.RgrShutdown | src/cc/lib/swcdb/manager/Rangers.cc:252-274 | removes the first ranger with one of the endpoints |
| Rangers.SetKeeps | src/cc/lib/swcdb/manager/Rangers.cc:699-754 | the id given out is of a ranger with those endpoints, and ids stay distinct and positive |
| Rangers.RunKeepsIds | src/cc/lib/swcdb/manager/Rangers.cc:201-274 | in every run, whatever else changes states and loads, no two rangers have the same id, and none has zero |
| Rangers.HasEndpointMeans | src/cc/lib/swcdb/core/comm/Resolver.cc:93-106 | two lists of endpoints have one in common exactly when their sets are not disjoint |
| Rangers.EqualEndpointsExact | src/cc/lib/swcdb/core/comm/Resolver.cc:108-118 | against some endpoints, a list passes for the same just if it is one of their orders, exactly when none of them is named twice |
| Rangers.Rangers.MarkAndCount | src/cc/lib/swcdb/manager/Rangers.cc:620-645 | rangers with too many failures are marked offline, and nothing else changes, up to the first that had the range and can have it again; without one, counts |
| Rangers.Rangers.PickBest | src/cc/lib/swcdb/manager/Rangers.cc:650-661 | nobody who can get the range is better in one respect and as good in the other; none is picked only if nobody can |
| Rangers.Rangers.NextRgr | src/cc/lib/swcdb/manager/Rangers.cc:610-662 | the first ranger that had the range, is acknowledged, stays and has not failed too often, or else the best of those that can get it; those that failed too often are marked offline and never picked, and nothing else changes |
| Rangers.AverageWithin | src/cc/lib/swcdb/manager/Rangers.cc:639-646 | the average is that of the acknowledged rangers: what bounds the ranges of all of them bounds it |
| Rangers.SomeEligible | src/cc/lib/swcdb/manager/Rangers.cc:645-661 | with an acknowledged ranger and none shutting down, somebody can get the range |
| Rangers.NobodyEligible | src/cc/lib/swcdb/manager/Rangers.cc:645-661 | when nobody can get the range though some are acknowledged, all who stay are above the average and one who is leaving is not |
| Rangers.HasMeans | src/cc/lib/swcdb/manager/Rangers.cc:651-656 | a flag of a state is the lowest bit of what is above the smaller flags |
| Rangers.EligibleExact | src/cc/lib/swcdb/manager/Rangers.cc:645-661 | somebody can get the range exactly when one who stays has no more than its part of all ranges, those of rangers that are leaving among them |
| Rangers.LeavingKeepsOthersOut | src/cc/lib/swcdb/manager/Rangers.cc:645-661 | a ranger that is leaving can keep everyone else above the average |
| RangersResources.RangersResources.Scale | src/cc/include/swcdb/manager/RangersResources.h:134-160 | gives every report its scale, with products of 32 bits |
| RangersResources.RangersResources.Balance | src/cc/include/swcdb/manager/RangersResources.h:167-180 | shares the budget out from the first on |
| RangersResources.RangersResources.Evaluate | src/cc/include/swcdb/manager/RangersResources.h:122-184 | scales the reports and, with a budget and enough ranges, shares it out over the list sorted by scale |
| RangersResources.ScaledRange | src/cc/include/swcdb/manager/RangersResources.h:145-160 | every scale is from 1 to 65535 |
| RangersResources.ScaledMaximum | src/cc/include/swcdb/manager/RangersResources.h:156-160 | some ranger has exactly 65535 |
| RangersResources.ScaledOrder | src/cc/include/swcdb/manager/RangersResources.h:156-160 | the order before normalisation is kept |
| RangersResources.GiftsTotal | src/cc/include/swcdb/manager/RangersResources.h:167-180 | what is given away is the budget, or all there is to give if that is less |
| RangersResources.LowestFirst | src/cc/include/swcdb/manager/RangersResources.h:163-180 | nobody gets less than its share while one of a higher scale gets something |
| RangersResources.MoreMemIsFreer | src/cc/include/swcdb/manager/RangersResources.h:145-155 | that more memory, up to a limit, is never a lower scale holds exactly when the product for the limit fits 32 bits |
| RangersResources.MoreCpuIsFreer | src/cc/include/swcdb/manager/RangersResources.h:145-155 | and so for the processor |
| RangersResources.MoreRangesIsBusier | src/cc/include/swcdb/manager/RangersResources.h:145-155 | that more ranges, up to a limit, are never a higher scale holds exactly when a hundred times the limit fits 64 bits |
| RangersResources.RawMeans | src/cc/include/swcdb/manager/RangersResources.h:145-155 | the scale before normalisation times the part of ranges is at most what memory and processor come to, and the next scale is above it, unless it is cut to 1 or 65535 |
| RangersResources.ScaledMeans | src/cc/include/swcdb/manager/RangersResources.h:156-160 | a scale is to 65535 as the one before normalisation is to the best, rounded down |
| RangersResources.ShareMeans | src/cc/include/swcdb/manager/RangersResources.h:167-176 | a ranger with ranges, below half the largest scale, gives away as many as its scale goes into the half, and no other gives any |
| RangersResources.GivenMeans | src/cc/include/swcdb/manager/RangersResources.h:163-180 | only a ranger with ranges and below half the largest scale gives any away, no more than its scale goes into the half, and no fewer when one after it gives some; nothing else of it changes |
| RangersResources.TotalMeans | src/cc/include/swcdb/manager/RangersResources.h:142 | the total is the sum of all ranges, in 64 bits |
| Comparators.CompareMemory | src/cc/include/swcdb/core/Comparators_basic.h:86-92 | the sign of the first difference |
| Comparators.ConditionLexicMeans | src/cc/include/swcdb/core/Comparators.h:123-133 | the condition tells which string is less in the order of the first difference, or that they are the same |
| Comparators.ConditionVolumeMeans | src/cc/include/swcdb/core/Comparators.h:136-153 | the condition by volume tells which string is less in the order by length and then first difference, or that they are the same |
| Comparators.LexTransitive | src/cc/include/swcdb/core/Comparators.h:123-133 | the order of the first difference is transitive |
| Comparators.LexAsymmetric | src/cc/include/swcdb/core/Comparators.h:123-133 | of two strings at most one is less in the order of the first difference, and then they differ |
| Comparators.VolumeTransitive | src/cc/include/swcdb/core/Comparators.h:136-153 | the order by length and then first difference is transitive |
| Comparators.TestsAgree | src/cc/include/swcdb/core/Comparators.h:170-235 | all ten tests are the relations of the two orders that they are named after |
| Comparators.PrefixInterval | src/cc/include/swcdb/core/Comparators.h:165-168 | the strings with a prefix are an interval of the order |
| Comparators.PrefixFirst | src/cc/include/swcdb/core/Comparators.h:165-168 | a prefix itself is the first of the strings that have it |
| Comparators.Sbs | src/cc/include/swcdb/core/Comparators.h:258-276 | true exactly when the bytes of one are among those of the other, as multisets |
| Comparators.PoSbs | src/cc/include/swcdb/core/Comparators.h:279-290 | true exactly when one is a subsequence of the other |
| Comparators.FoSbs | src/cc/include/swcdb/core/Comparators.h:293-309 | true exactly when one is empty or stands in the other where its first byte is first found |
| Comparators.MissesLaterOccurrence | src/cc/include/swcdb/core/Comparators.h:293-309 | an occurrence inside a failed attempt is not seen |
| Comparators.OccursInOrder | src/cc/include/swcdb/core/Comparators.h:279-309 | a string that stands in another in one piece is a subsequence of it |
| Comparators.InOrderIsSubset | src/cc/include/swcdb/core/Comparators.h:258-290 | a subsequence's bytes are among those of the whole |
| Serialization.EncodeVi | src/cc/include/swcdb/core/Serialization.h:163-300 | writes the seven-bit digits of a value, the low ones first, and touches nothing else; too many digits are an error |
| Serialization.DecodeVi | src/cc/include/swcdb/core/Serialization.h:176-317 | reads the digits up to the first byte without a flag into a word, cutting off what does not fit; too few bytes, or too many digits, are an error |
| Serialization.LengthsVi | src/cc/include/swcdb/core/Serialization.h:199-284 | the announced lengths are the lengths |
| Serialization.ViRoundTrips | src/cc/include/swcdb/core/Serialization.h:207-317 | decoding an encoding, whatever follows it, gives the value and takes just its bytes, in 24, 32 and 64 bits |
| Serialization.DecodeVi64Unbounded | src/py/package/swcdb/serialization.py:25-33 | reads on to a byte without a flag or to the end, unbounded |
| Serialization.DecodeBoth | src/py/package/swcdb/serialization.py:25-33 | what the bounded decoder accepts, the unbounded one reads to the same place and with the same value modulo 2^64; what the bounded one refuses, the other takes, past ten bytes or to the end |
| Serialization.EncodeFixed | src/cc/include/swcdb/core/Serialization.h:325-332 | writes one byte above the sizes, or a size and that many bytes |
| Serialization.EncodeFixedVi24 | src/cc/include/swcdb/core/Serialization.h:355-364 | writes a value of 24 bits in the announced length |
| Serialization.EncodeFixedVi32 | src/cc/include/swcdb/core/Serialization.h:402-413 | writes a value of 32 bits in the announced length |
| Serialization.EncodeFixedVi64 | src/cc/include/swcdb/core/Serialization.h:461-480 | writes a value of 64 bits in the announced length, or one byte more for three values |
| Serialization.DecodeFixed | src/cc/include/swcdb/core/Serialization.h:334-506 | reads one byte above the sizes as a value, or a size and that many bytes; too few bytes are an error, and a size of zero reads the largest |
| Serialization.StraysExact | src/cc/include/swcdb/core/Serialization.h:367-506 | bytes are read that were not made sure of exactly when the first is zero and the largest size does not remain |
| Serialization.StraysOnZero | src/cc/include/swcdb/core/Serialization.h:367-506 | a first byte never makes a decoder read what it was not told of, whatever follows, exactly when it is not zero |
| Serialization.LengthsFixed | src/cc/include/swcdb/core/Serialization.h:441-480 | the announced lengths are the lengths, but for 2^40-1, 2^48-1 and 2^56-1, which take one byte more |
| Serialization.FixedRoundTrips | src/cc/include/swcdb/core/Serialization.h:356-506 | decoding an encoding, whatever follows it, gives the value, and takes and makes sure of just its bytes |
| Serialization.DecodeBytes | src/cc/include/swcdb/core/Serialization.h:548-555 | reads a length and that many bytes; too few are an error |
| Serialization.EncodeBytes | src/cc/include/swcdb/core/Serialization.h:541-545 | writes a length and then the bytes, and touches nothing else |
| Serialization.BytesRoundTrip | src/cc/include/swcdb/core/Serialization.h:537-555 | bytes written after their length are read back, whatever follows |
| Serialization.ReadBytesMeans | src/cc/include/swcdb/core/Serialization.h:548-555 | a length that ends within ten bytes is followed by that many bytes, which are the answer; a longer one, or too few bytes, are an error |
| Serialization.NoLength | src/cc/include/swcdb/core/Serialization.h:548-555 | so are bytes in which no length ends |
| Checksum.AddWords | src/cc/include/swcdb/core/Checksum.h:29-45 | a block of up to 360 words adds to both sums, in 32 bits without overflow, and reduces them |
| MngrRole.MngrRole.NominateHost | src/cc/lib/swcdb/manager/MngrRole.cc:147-216 | takes in one listed host: the turn of which `ListedTurn` says what becomes of every host |
| MngrRole.MngrRole.TakeOverFor | src/cc/lib/swcdb/manager/MngrRole.cc:218-237 | steps up for the group of a listed host, or not |
| ColumnHealthChecks.ColumnHealthCheck.Open | src/cc/lib/swcdb/manager/ColumnHealthCheck.cc:156-164 | opens a checker for a ranger that has none |
| ColumnHealthChecks.ColumnHealthCheck.Add | src/cc/lib/swcdb/manager/ColumnHealthCheck.cc:33-36 | adds a range to a checker, keeping the check sound |
| ColumnHealthChecks.ColumnHealthCheck.Place | src/cc/lib/swcdb/manager/ColumnHealthCheck.cc:138-168 | adds a range to the one checker of its ranger |
| ColumnHealthChecks.ColumnHealthCheck.Release | src/cc/lib/swcdb/manager/ColumnHealthCheck.cc:185-191 | gives up a token; with the last one the checkers are dropped |
| ActionQueues.QueueSafe.TakeFront | src/cc/include/swcdb/core/QueueSafe.h:71-75 | moves the first item out and leaves its place taken |
| ColumnsLoads.CountRun | src/cc/lib/swcdb/manager/MngdColumns.cc:656-662 | counts the columns of a group from the current one on |
| ColumnsLoads.TakeBatch | src/cc/lib/swcdb/manager/MngdColumns.cc:666-672 | takes up to 1000 of them |
| RangersResources.RangersResources.Measure | src/cc/include/swcdb/manager/RangersResources.h:135-143 | the largest of each measure, and the total of ranges |
| RangersResources.RangersResources.SetRaws | src/cc/include/swcdb/manager/RangersResources.h:145-155 | sets the scales before normalisation, and finds the best |
| RangersResources.RangersResources.Normalise | src/cc/include/swcdb/manager/RangersResources.h:156-160 | makes the best scale the maximum |
| RangersResources.RangersResources.Take | src/cc/include/swcdb/manager/RangersResources.h:169-176 | what one ranger gives away |
| Comparators.Match | src/cc/include/swcdb/core/Comparators.h:265-274 | marks the first unmarked place of a byte, if there is one |
| Comparators.MemCmpMeans | src/cc/include/swcdb/core/Comparators_basic.h:86-92 | the sign of a comparison tells whether the bytes are the same, or which is less at the first difference |
| Comparators.PfMeans | src/cc/include/swcdb/core/Comparators.h:165-168 | the prefix test is true exactly for prefixes |
| KeyRuns.KeyEnd | src/cc/bin/swcdb/utils/load_generator.cc:400-516 | at every call up to the total there is a key, and its last fraction is the value of its turn |

## Left out

- Vector: the element types that need a destructor or throw, `shrink_to_fit`, and a value to insert that lies in the vector's own buffer.
- PushBack: a vector whose size type is exhausted, for which the program has no check.
- Insert: an append to such a vector.
- VectorsVector: the outer vector is a sequence here, so how it grows is not modelled; chunks of one element and a split at 0 (`SIZE` 1) are excluded, as the cells are configured.
- KeyGenerators: the `UNIFORM` distribution, which is random; a product ncells * onlevel that overflows; and `nfractions` at the largest value of its type, for which the constructor does not end.
- Make: what a generator for nothing does, with no cells or no fractions, which the constructor lets through.
- NextNFraction: with LEVELS, calls after the one that gives no key, which counts the fractions on past all of them.
- InWords: stepping up with a step that is not above the number of cells and a sum at 2^64 or above, which takes 2^63 cells and more; and 2^64 - 1 cells. `SteppingEnumerates` leaves out only the sums above, and such cells.
- MngrRole: sending, scheduling, logging and how the chain of managers is put together; addresses of servers are kept under themselves and not under a hash; bytes that are no state in a message.
- FillStates: a message while the configuration names the local manager for a group and it is not on record, when the program goes through a null pointer; so for `DecideToStepUp` and `TakeOverFor`.
- MngrRoles.RunSound: a whole message is one event; `WritesExact` and `LookedTooEarly` are about messages taken in at a time.
- Allowed: that the managers' messages agree on which host is in which group is what the result on runs takes for granted; `DisagreementBreaks` shows why.
- Election: is about the messages a manager sends itself, with nothing else in between.
- AroundExact: all managers have the same hosts in the same order, as from the same configuration, and nothing else happens to the sender while its token goes around; so for `LeadAround`.
- ColumnsLoad: stopping in the middle, waiting until all groups are active, and the sort of the groups, which `AllAnnounced` takes as done; asking for each announced column to be loaded is an event of `ManagedColumns`.
- RoundStarts: a batch longer than the count that is left of an earlier round, on which the counter wraps.
- InternalLoad: the answers and broadcasts of `update_status`, its other functions, and a column outside the manager's own range.
- RunActions: what a request does once it is handled, and its error answers.
- ColumnHealthCheck: which ranges are due and what merging does with them; a new checker is added under two locks in the program and in one event here.
- NextRgr: the sum of ranges is not cut to 64 bits.
- Rangers: `update_status`, which installs ids that another manager decided; the objects shared with other parts are values of the list here.
- Sort: stands for the library's sort; ties may come in another order, and all that is proved holds for any sorted order.
- StructuredIds: errors and retries of the file system, the joining of paths into one text, and names that begin with a dot, which the local file system does not list.
- DecodeVi: or-ing bits above those that are there is written as adding.
- Serialization: fixed-width numbers, floating point and the big-endian hosts.
- Comparators: regular expressions, comparisons of numbers and the parsing of comparators.
- The servers, settings, Thrift interfaces, compression, page arenas, time parsing and the merging of ranges: plumbing, foreign libraries or unseen code.
