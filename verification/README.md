# A verified model of the Ethereum execution libraries

This project models seven parts of the repository in Dafny and proves what they are for. The
program's own form is kept: objects that change in place are classes whose methods are proved
against functions on values, loops stay loops with invariants, and the laws are lemmas about
those functions over every input and every run.

- **Merkle Patricia Trie** (`MptTree`, `MptDeletion`, `MptCanonical`, `MptNibbles`, `MptStore`,
  `MptTrie`, `MptHistory`). A trie value with its insertion and deletion; the content-addressed store in
  which nodes under 32 bytes are inlined; the `Trie` class with its node stacks, splits,
  collapses and the rewiring loop. Keys are arbitrary. `del` is right exactly under
  `DeletesExactly`, which fails at some branch values and for the empty key at a root branch
  with children; over prefix-free keys the trie is a map, in normal form, and its root is a
  function of the map. Every root ever produced can
  still be read.
- **Canonical chain** (`ChainModel`, `Blockchain`). Headers, total difficulties, the number
  index, the head and the iterator heads, under puts, head resets, deletions and iteration,
  with database reads that may fail at any point.
- **EVM call frames** (`EvmTypes`, `EvmJournal`, `EvmTransient`, `EvmStateManager`,
  `EvmFrames`, `EvmLaws`, `EvmEffects`, `EvmReach`, `EvmWarmth`, `EvmGas`, `EvmSpending`,
  `EvmPayment`, `EvmMachine`). A frame runs a script of actions, with calls and creations as
  sub-scripts. `EvmFrames` says what a message does as a function. Over every tree of frames
  `EvmLaws` and `EvmGas` prove its conservation laws, `EvmEffects` where value and code go and
  that static frames change nothing, `EvmReach` how far a script reaches, `EvmWarmth` what
  stays warm, `EvmSpending` exactly what gas is used, and `EvmPayment` when a parent can pay
  for its child. The classes `Journal`, `TransientStorage` and `SimpleStateManager` are the
  undo mechanisms, and `Evm` with `Interpreter` runs them side by side and is proved to
  compute the function.
- **RLP** (`Rlp`), **blob fee** (`BlobFee`), **access witness** (`WitnessModel`,
  `AccessWitness`) and **binary state tree** (`BinaryShape`, `BinaryStore`, `BinaryTree`).

`Wrappers` and `Sums` hold what several parts share.

Hashes are an abstract collision-free function: `Codec.CollisionFree` and
`Hasher.CollisionFree` are assumptions of the constructors, and the blockchain takes a header's
hash to stand for the header. Integers are unbounded as the source's `bigint`s are; lengths and
counters that are JavaScript numbers are unbounded too, but for the code offsets of an access.

What the model shows about the code that its comments or types do not say:

- A branch's value survives `del` of the key that ends there, because setting a branch value
  to null does nothing and the collapse counts only children
  (`packages/mpt/src/node/branch.ts:21-27`, `packages/mpt/src/mpt.ts:701-732`);
  `DeletedKeySurvives` is such a history and `DeleteMeaning` the exact condition.
- `del` of the empty key at a root branch takes the exit meant for a lone node and empties the
  trie (`packages/mpt/src/mpt.ts:681-684`); `EmptyKeyTakesAll` is a history of two puts and
  that deletion, in which the empty key was never put.
- A creation at the top whose sender cannot pay throws out of `runCall` after the checkpoints
  were opened, and leaves them open (`packages/evm/src/evm.ts:674`); everywhere else the stacks
  return to where they were. `EvmMachine.Evm.RunCall` says exactly when.
- The gas used by a child "should always be safe" to take from the parent
  (`packages/evm/src/interpreter.ts:1181`). A call's limit is computed before the state gas for
  a new account is charged (`packages/evm/src/opcodes/EIP7928.ts:128-173`), so it may not fit.
  `ScheduledPayment` gives the exact condition. The charge is made only for an empty account,
  which has no code, and a child without code uses no gas, so only a call with value to a
  precompile that has no account can overrun; `OverrunningCall` is one.
- A creation that reverts with data beginning with the byte 0xef is treated as invalid code and
  loses its unused gas (`packages/evm/src/evm.ts:914-935`): `RevertedCreation` says of
  every script whose frame reverts when, and `RevertedAtOnce` is such a message.
- The journal's doubt about committed deeper entries before a reverted one
  (`packages/evm/src/journal.ts:130`) is unfounded: `EvmJournal.Journal.Revert` gives back the
  matching checkpoint in every nesting.
- Decoding the empty input gives the empty byte string although no encoding is empty.
- After a merge of access witnesses the next commit loses a merged write exactly when the same
  key is cached here without a write (`MergeThenCommitKeeps`); merged entries are shared objects.
- The hash of an internal node of the binary tree does not cover the stored child paths
  (`packages/binarytree/src/binaryTree.ts:713-722`); trees in place need no more, since the
  hash still determines the paths (`HashDeterminesNode`).
- A binary-tree put is right exactly when it does not empty a stem beside others
  (`packages/binarytree/src/binaryTree.ts:219-232`, `packages/binarytree/src/binaryTree.ts:320-333`).
  A stem right below the root that held a value keeps it: such a put changes nothing. In every
  other case the tree refers to a node that was deleted; searches that end at that stem fail,
  and all others read as before (`BinaryTree.BinaryTree.Unread`). `DeletionThatEmpties` is a history that
  leads there.
- The offset of a code chunk is computed in floating point, and reads back exactly when the
  offset is itself a JavaScript number (`ChunksReadBack`).

## Model

| member | source | states |
|---|---|---|
| MptTree.InsertMeaning | packages/mpt/src/mpt.ts:540-610 | inserting a value changes the lookup of that key to it and of no other key, on every well-formed trie and key |
| MptTree.InsertKeeps | packages/mpt/src/mpt.ts:540-610 | insertion keeps the trie well formed: no empty extension, no extension on anything but a branch, no branch without children |
| MptTree.SplitMeaning | packages/mpt/src/mpt.ts:568-610 | splitting a leaf or extension where a new key leaves it keeps all its old keys and adds the new one |
| MptTree.SomeKey | packages/mpt/src/mpt.ts:540-610 | every well-formed trie that is not empty holds some key |
| MptDeletion.RemoveMeaning | packages/mpt/src/mpt.ts:622-742 | under RemovesExactly, removing a key empties its lookup and changes no other |
| MptDeletion.RemoveKeeps | packages/mpt/src/mpt.ts:622-742 | deletion with its collapse of one-child branches keeps the trie well formed |
| MptDeletion.RemoveFails | packages/mpt/src/mpt.ts:686-732 | when RemovesExactly does not hold there is a key whose lookup is wrong after the removal, and it is given |
| MptDeletion.DeleteMeaning | packages/mpt/src/mpt.ts:269-289 | deleting a key acts on the lookups as deleting it from a map if and only if DeletesExactly holds of the trie and the key |
| MptDeletion.BranchValueSurvives | packages/mpt/src/node/branch.ts:21-27 | a trie whose branch value survives its own deletion, which leaves the trie as it is |
| MptCanonical.InsertNormal | packages/mpt/src/mpt.ts:540-610 | over keys none of which begins another, insertion keeps the normal form: branches have two children or more and no value |
| MptCanonical.RemoveNormal | packages/mpt/src/mpt.ts:701-732 | on a trie in normal form deletion keeps the normal form |
| MptCanonical.NormalFormUnique | packages/mpt/src/mpt.ts:568-742 | two tries in normal form with the same lookups are the same trie |
| MptCanonical.EqualLengthPrefixFree | packages/mpt/src/mpt.ts:981-986 | keys of one length, as hashed keys are, are prefix-free |
| MptCanonical.HistoryRefinesMap | packages/mpt/src/mpt.ts:219-289 | after any sequence of puts and deletes over prefix-free keys the trie is in normal form and its lookups are those of the plain map |
| MptCanonical.HistoryIndependence | packages/mpt/src/mpt.ts:219-289 | two histories over prefix-free keys build the same trie exactly when they leave the same map |
| MptNibbles.BytesToNibbles | packages/mpt/src/util/nibbles.ts:8-19 | each byte gives its high and then its low half |
| MptNibbles.NibblesPrefix | packages/mpt/src/util/nibbles.ts:8-19 | one nibble key begins another exactly when the byte keys do |
| MptStore.ResolvesGrows | packages/mpt/src/mpt.ts:752-813 | adding content-addressed nodes never makes a reference below a trie unresolvable |
| MptStore.RootDeterminesTree | packages/mpt/src/mpt.ts:752-813 | with a collision-free hash two roots, inlined children included, are equal exactly when the tries are |
| MptStore.RemoveMerge | packages/mpt/src/mpt.ts:626-672 | joining the remaining child of a collapsed branch with the node above it is removal at the end of the path |
| MptTrie.Trie.constructor | packages/mpt/src/mpt.ts:105-145 | an empty trie with the empty root |
| MptTrie.Trie.FindPath | packages/mpt/src/mpt.ts:302-424 | the stack holds the nodes from the root to where the walk stops, the remaining nibbles are what is left of the key, and a node is found exactly when the key ends there |
| MptTrie.Trie.Get | packages/mpt/src/mpt.ts:201-210 | returns what the trie that the history builds holds at the key; when the history comes from byte operations over prefix-free keys, what their plain map holds |
| MptTrie.Trie.LookupNode | packages/mpt/src/mpt.ts:487-504 | a reference, hashed or inlined, gives the node it stands for; a missing node is never met |
| MptTrie.Trie.FormatNode | packages/mpt/src/mpt.ts:797-813 | a node is referred to by hash from 32 bytes on, and at the top, and then stored |
| MptTrie.Trie.SaveStack | packages/mpt/src/mpt.ts:752-778 | rewiring the stack upwards gives the root of the trie with the bottom node replaced, and all of it can be looked up |
| MptTrie.Trie.IsMatchingLeafUpdate | packages/mpt/src/mpt.ts:510-527 | true exactly when the key ends at the last node of the stack, which is a leaf |
| MptTrie.Trie.UpdateNode | packages/mpt/src/mpt.ts:540-610 | the new root is that of the trie with the key inserted |
| MptTrie.Trie.DeleteNode | packages/mpt/src/mpt.ts:622-742 | the new root is that of the trie with the key removed as Delete removes it; none of the internal errors is reached |
| MptTrie.Trie.Put | packages/mpt/src/mpt.ts:219-261 | appends a put, or a delete for an empty value, to the history the root stands for; earlier roots still stand for theirs |
| MptTrie.Trie.Del | packages/mpt/src/mpt.ts:269-289 | appends a delete to the history the root stands for, changing nothing when the key is absent |
| MptTrie.Trie.ApplyBatch | packages/mpt/src/mpt.ts:829-842 | a sequence of byte operations appends exactly its history to the one the root stands for, and every root that could be set before still can |
| MptTrie.Trie.SetRoot | packages/mpt/src/mpt.ts:162-177 | any root ever produced can be set again and denotes the history it denoted then |
| MptTrie.SameRootSameMap | packages/mpt/src/mpt.ts:162-289 | over prefix-free keys two histories have equal roots exactly when they leave equal maps, and the empty root exactly when they leave nothing |
| MptHistory.GetIsPlainMap | packages/mpt/src/mpt.ts:201-289 | after any history of puts and deletes over prefix-free byte keys, every byte key is found exactly as in the plain map of the history |
| MptHistory.GetIsPlainMapForEqualLengths | packages/mpt/src/mpt.ts:201-289 | the same for every history over byte keys of one length |
| MptHistory.DeletedKeySurvives | packages/mpt/src/mpt.ts:686-732 | a history of three puts and a delete with byte keys after which the deleted key is still found |
| MptHistory.EmptyKeyTakesAll | packages/mpt/src/mpt.ts:681-684 | a history of two puts and a deletion of the empty key after which the trie is empty although the plain map holds both keys |
| MptHistory.EmptyKeyUnderNormalForm | packages/mpt/src/mpt.ts:681-684 | the trie before that deletion is in normal form and has no branch value, and the condition for a right deletion fails there |
| ChainModel.ForkPointExists | packages/blockchain/src/blockchain.ts:1045-1078 | a path from genesis whose ancestors are stored has a highest block that is canonical |
| ChainModel.ForkPointUnique | packages/blockchain/src/blockchain.ts:1162-1224 | a path has one fork point only, so both backward walks stop at the same block |
| ChainModel.AgreeBelow | packages/blockchain/src/blockchain.ts:1045-1078 | a path that agrees with the canonical chain at a height agrees at every lower one |
| ChainModel.ChainIsPath | packages/blockchain/src/blockchain.ts:1162-1224 | the canonical chain up to any height is the path of the block there |
| ChainModel.TruthfulGrows | packages/blockchain/src/blockchain.ts:430-448 | storing a block with the parent total difficulty plus its own keeps every stored total the sum along the path |
| ChainModel.FirstHeaviestKept | packages/blockchain/src/blockchain.ts:450-485 | taking a block as head only when it is heavier keeps the head the first seen of the heaviest |
| Blockchain.PlacedChain | packages/blockchain/src/blockchain.ts:450-485 | a placed block leaves a gap-free parent-linked chain to the head with all iterator heads on it |
| Blockchain.PlacedBlock | packages/blockchain/src/blockchain.ts:383-500 | a placed block keeps everything the blockchain maintains |
| Blockchain.PlacedHeaviest | packages/blockchain/src/blockchain.ts:450-485 | placing by total difficulty keeps the head the first of the heaviest stored blocks |
| Blockchain.AdoptedChain | packages/blockchain/src/blockchain.ts:1162-1224 | indexing exactly the new path and moving the orphaned heads to the fork gives a canonical chain under every head |
| Blockchain.CutBranch | packages/blockchain/src/blockchain.ts:850-936 | deleting a canonical block with those above it leaves its parent the top of a chain and all heads on it |
| Blockchain.Blockchain.constructor | packages/blockchain/src/constructors.ts:59-87 | a fresh blockchain holds the genesis block as chain, head and heaviest block |
| Blockchain.Blockchain.FindCommonAncestor | packages/blockchain/src/blockchain.ts:1045-1078 | ends, and returns the highest block of the new path that is canonical; it fails only on a failed read or a missing ancestor |
| Blockchain.Blockchain.DeleteCanonicalChainReferences | packages/blockchain/src/blockchain.ts:1093-1145 | drops the index from a number on and moves exactly the heads that stood on a dropped block |
| Blockchain.Blockchain.RebuildCanonical | packages/blockchain/src/blockchain.ts:1162-1224 | indexes the path above the fork, stops at the same fork as the ancestor walk, and moves exactly the heads orphaned there |
| Blockchain.Blockchain.PutBlock | packages/blockchain/src/blockchain.ts:383-500 | success stores the block and reorganises exactly when it outweighs the head or under proof of stake; failure leaves tables, heads and head as before; without read faults success has an exact condition; the head stays the first of the heaviest |
| Blockchain.Blockchain.ResetCanonicalHead | packages/blockchain/src/blockchain.ts:334-369 | the numbered canonical block becomes head, the index above is dropped, heads above move to it; fails exactly when the number is not indexed |
| Blockchain.Blockchain.DelChild | packages/blockchain/src/blockchain.ts:901-936 | deletes the block and, for a canonical one, every canonical block above it, moving the head to the parent |
| Blockchain.Blockchain.DelBlock | packages/blockchain/src/blockchain.ts:838-884 | deletion keeps the whole invariant: a canonical block goes with its canonical descendants, another block alone |
| Blockchain.Blockchain.Iterator | packages/blockchain/src/blockchain.ts:949-1024 | runs a callback over as many canonical blocks above the head as asked, or all; this head alone follows, and stays before the block on which the callback throws; the error passes through unless it says not found |
| EvmJournal.UndoKeepsRipemd | packages/evm/src/journal.ts:164-171 | undoing differences never removes RIPEMD160 from the touched accounts and treats all others alike |
| EvmJournal.UndoRest | packages/evm/src/journal.ts:128-177 | undoing the entries of the open level leaves every enclosing level undoing to its own copy |
| EvmJournal.Journal.AddWarmedAddress | packages/evm/src/journal.ts:249-262 | the address becomes warm; every open checkpoint still undoes to its copy |
| EvmJournal.Journal.AddWarmedStorage | packages/evm/src/journal.ts:292-316 | the slot becomes warm, and its address with it |
| EvmJournal.Journal.TouchAccount | packages/evm/src/journal.ts:97-114 | the account becomes touched |
| EvmJournal.Journal.Checkpoint | packages/evm/src/journal.ts:122-126 | opens a level whose copy is the present state |
| EvmJournal.Journal.Commit | packages/evm/src/journal.ts:116-120 | closes a level, keeps the state, and leaves all lower copies reachable |
| EvmJournal.Journal.Revert | packages/evm/src/journal.ts:128-178 | gives back exactly the copy of the matching checkpoint, with RIPEMD160 alone left touched, in every nesting |
| EvmTransient.UndoSameView | packages/evm/src/transientStorage.ts:99-108 | undoing depends only on what can be observed of the storage |
| EvmTransient.TransientStorage.Get | packages/evm/src/transientStorage.ts:35-47 | the value last written, 32 zero bytes where there is none |
| EvmTransient.TransientStorage.Put | packages/evm/src/transientStorage.ts:53-78 | refused for a key that is not 32 bytes or a longer value, otherwise written and logged |
| EvmTransient.TransientStorage.Checkpoint | packages/evm/src/transientStorage.ts:92-94 | opens a level on the present storage |
| EvmTransient.TransientStorage.Commit | packages/evm/src/transientStorage.ts:83-87 | closes a level and keeps the changes; fails with nothing to commit |
| EvmTransient.TransientStorage.Revert | packages/evm/src/transientStorage.ts:99-108 | what can be observed is again what could be at the matching checkpoint |
| EvmTransient.TransientStorage.Clear | packages/evm/src/transientStorage.ts:127-130 | empties storage and log |
| EvmStateManager.SimpleStateManager.PutCode | packages/statemanager/src/simpleStateManager.ts:89-98 | stores the code and records in the account that it has code |
| EvmStateManager.SimpleStateManager.Checkpoint | packages/statemanager/src/simpleStateManager.ts:55-67 | a level with the same maps on top of the others |
| EvmStateManager.SimpleStateManager.Commit | packages/statemanager/src/simpleStateManager.ts:119-123 | the top stays, the level below it goes |
| EvmStateManager.SimpleStateManager.Revert | packages/statemanager/src/simpleStateManager.ts:125-129 | the level below is the top again |
| EvmLaws.MessageValue | packages/evm/src/evm.ts:485-529 | over every tree of frames a message leaves the sum of all balances and burns unchanged whether it commits or reverts, removes no account and leaves none in debt |
| EvmLaws.RunValue | packages/evm/src/interpreter.ts:306-382 | through every script the cached contract is the stored account and value is conserved |
| EvmLaws.SelfDestructValue | packages/evm/src/interpreter.ts:1386-1490 | a self-destruct moves the balance to the beneficiary, or burns it when paid to itself by an account of the same transaction, or leaves it |
| EvmLaws.TransferKeeps | packages/evm/src/evm.ts:485-529 | reducing the sender and adding to the receiver conserve value also when they are the same account |
| EvmLaws.CreatorCanPay | packages/evm/src/interpreter.ts:1246-1265 | by the cached balance an inner creation never takes more than its creator has |
| EvmEffects.TransferMoves | packages/evm/src/evm.ts:485-529 | a transfer fails exactly when the receiver would overflow or the sender has not enough; else the sender's balance is lower and the receiver's higher by the value, every other account is the same, both are touched, and a transfer to oneself or a delegated call changes no account |
| EvmEffects.StaticRun | packages/evm/src/interpreter.ts:1057-1149 | a static frame leaves code, storage, transient storage and every account as they were, whatever its script and the frames below it do and however it ends |
| EvmEffects.StaticMessage | packages/evm/src/interpreter.ts:1057-1149 | an inner static message changes nothing but the balances that its own value moves |
| EvmEffects.FailedMessage | packages/evm/src/evm.ts:1358-1417 | a failed message leaves code, storage, transient storage and every account as they were, but for the sender's nonce at depth 0, which is one higher |
| EvmEffects.CallMoves | packages/evm/src/interpreter.ts:1057-1182 | over all four kinds, a call without code moves its value from this account to the target if it is a plain call that depth, balance and the static flag allow and the transfer succeeds, and else changes no account |
| EvmEffects.CreationStarts | packages/evm/src/evm.ts:718-760 | the frame of a creation whose address is free starts with the new account's nonce one higher and the value moved to it, every other account but the sender's the same |
| EvmEffects.CreationDeploys | packages/evm/src/evm.ts:862-1090 | a creation succeeds if and only if it gets to run, its frame ends without error and the deposit fits in gas and size and does not begin with the format byte; the code is then at the new account, and all other code and accounts are as the frame left them |
| EvmEffects.CreateMoves | packages/evm/src/interpreter.ts:1218-1347 | a creation without init code counts up the creator's nonce exactly when depth, balance and nonce allow it, and moves the value and counts up the new nonce exactly when besides that the address is free and nothing overflows |
| EvmEffects.SelfDestructMoves | packages/evm/src/interpreter.ts:1386-1490 | a self-destruct moves the whole balance to the beneficiary, burns it when that is a new account itself, and changes nothing else |
| EvmReach.RunWithin | packages/evm/src/interpreter.ts:306-382 | through every script slots change only at addresses that the tree of calls stores under, code only at its creations, accounts only of its parties; the created addresses grow, and only by creations of the tree |
| EvmReach.MessageWithin | packages/evm/src/interpreter.ts:1057-1149 | the same of an inner message: a plain call acts on the target, a call of other code on this account, a static call on nothing |
| EvmWarmth.MessageWarms | packages/evm/src/evm.ts:1209-1260 | over every tree nothing warm becomes cold, and the address of a creation is warm afterwards even if the creation fails |
| EvmGas.RunGas | packages/evm/src/interpreter.ts:633-648 | gas left is never negative and, while stipends are covered and limits fit, within the frame limit |
| EvmGas.MessageGas | packages/evm/src/evm.ts:1169-1177 | every exit of a call or creation uses between nothing and the whole message limit |
| EvmSpending.RunSpends | packages/evm/src/interpreter.ts:633-715 | a script that ends without error or in a revert has taken from gas left the amounts it used, the state gas the reservoir did not cover and what its children used, less their stipends |
| EvmSpending.FrameUses | packages/evm/src/evm.ts:1169-1177 | a frame uses what its script spent, or the whole limit after an error other than a revert |
| EvmSpending.CallUses | packages/evm/src/evm.ts:443-656 | a call uses what its frame does, and nothing without code or when its transfer fails |
| EvmSpending.CreationUses | packages/evm/src/evm.ts:862-984 | a creation that succeeds uses what its frame does, the words of its code to hash and the state gas the reservoir did not cover |
| EvmSpending.StraightCall | packages/evm/src/evm.ts:443-656 | a call whose script only uses and charges gas succeeds exactly if the limit covers the sum of its uses and the uncovered parts of its charges, and then uses that sum, else the limit |
| EvmPayment.CallCosts | packages/evm/src/interpreter.ts:1151-1182 | no child costs its parent more than the limit asked for, and one that fails at once costs just that |
| EvmPayment.RevertedCreation | packages/evm/src/evm.ts:914-935 | for every script whose frame reverts, a creation that gets to run stays a revert with the gas its frame used if and only if the returned data does not begin with the format byte; else it is invalid code and uses the whole limit |
| EvmPayment.RevertedAtOnce | packages/evm/src/evm.ts:914-935 | a creation whose script reverts at once uses nothing, or its whole limit when its data begins with the format byte |
| EvmPayment.CallPayment | packages/evm/src/interpreter.ts:1151-1182 | no child, whatever it does, makes the parent of a call run out of gas if and only if the limit fits in the gas left or the child does not get to run |
| EvmPayment.CallPaidUnlessRun | packages/evm/src/evm.ts:542-597 | a call to an account without code, or one whose transfer fails, is always paid, whatever its limit |
| EvmPayment.CreatePayment | packages/evm/src/interpreter.ts:1246-1310 | the same for a creation; an address that is taken uses the whole limit too |
| EvmPayment.ScheduledPayment | packages/evm/src/opcodes/EIP7928.ts:128-173 | no child makes the parent of an affordable call opcode run out of gas if and only if the part of the new-account charge that the reservoir does not cover fits in what the limit leaves over, or the child does not get to run |
| EvmPayment.OverrunsOnlyEmptyAccounts | packages/evm/src/opcodes/EIP7928.ts:97-119 | a call opcode that overruns sends value to an absent or empty account that still has something to run |
| EvmPayment.OverrunningCall | packages/evm/src/opcodes/EIP7928.ts:128-173 | with the parameters of the Amsterdam hardfork, a call with one wei to a precompile without account overruns: 975418 used where 807300 is left |
| EvmGas.MessageStateGas | packages/evm/src/evm.ts:1368-1417 | over every tree reservoir and used counter together never drop across a completed frame, and grow by exactly what was spilled when no frame ended in a static violation or inside a charge |
| EvmGas.RunStateGas | packages/evm/src/interpreter.ts:675-715 | the same within a running frame, where they can drop only by an error |
| EvmGas.CreatedStateGas | packages/evm/src/evm.ts:862-984 | the same for a creation with its code deposit |
| EvmGas.FailedCounters | packages/evm/src/evm.ts:1368-1417 | a failed message adds nothing to the used counter and takes back a creation's charge; what it spilled is in the reservoir again |
| EvmMachine.Evm.RunCall | packages/evm/src/evm.ts:1209-1446 | computes the frame function with all undo stacks as before; after a failure accounts, code, storage, transient storage and warm addresses are those of the checkpoint, and after a static violation both state-gas counters together as they were; a success passes all its writes on; throws exactly for a creation whose sender cannot pay, and then leaves its checkpoint open; a successful call that has no code, or is static below the top, moves its value and changes nothing else; the code of a creation is at its address |
| EvmMachine.Evm.ExecuteCall | packages/evm/src/evm.ts:443-656 | transfer, run and cleanup compute the frame function for a call; without code to run a success has moved the value from the sender to the receiver and changed no other account |
| EvmMachine.Evm.ExecuteCreate | packages/evm/src/evm.ts:658-1114 | collision check with nonce, code and storage root, endowment, run and deposit compute the frame function for a creation; throws exactly when the sender cannot pay |
| EvmMachine.Evm.RunInterpreter | packages/evm/src/evm.ts:1119-1202 | without error or after a revert the gas used is what the actions and children of the run spent; any other error uses the whole limit; an error gives up the created addresses |
| EvmMachine.Evm.DepositCode | packages/evm/src/evm.ts:862-984 | succeeds exactly when the frame did and the deposit fits in gas and size and is not of the refused format; then the code is at the new account and all else as before, and the reservoir is charged first; otherwise the state is as before |
| EvmMachine.Evm.Revert | packages/evm/src/evm.ts:1358-1417 | the three undo mechanisms and the gas snapshots together give back the checkpoint, crediting spilled gas unless it stays consumed |
| EvmMachine.Evm.ReduceSenderBalance | packages/evm/src/evm.ts:1566-1587 | takes the value or reports a lack of it, the account in the map changed in either case |
| EvmMachine.Evm.AddToAccount | packages/evm/src/evm.ts:1589-1612 | adds the value unless the balance would overflow |
| EvmMachine.Evm.PostMessageCleanup | packages/evm/src/evm.ts:1617-1619 | at depth 0 transient storage is emptied and nothing else changes |
| EvmMachine.Interpreter.Run | packages/evm/src/interpreter.ts:306-382 | stepping until the frame ends computes the frame function, the undo stacks as before; a static frame changes no account, code or storage |
| EvmMachine.Interpreter.UseGas | packages/evm/src/interpreter.ts:633-648 | gas goes down, or to nothing with an out-of-gas error |
| EvmMachine.Interpreter.ChargeStateGas | packages/evm/src/interpreter.ts:675-696 | reservoir first, then gas left; the used counter grows only when both sufficed |
| EvmMachine.Interpreter.RefillStateGasReservoir | packages/evm/src/interpreter.ts:707-715 | moves an amount from the used counter to the reservoir |
| EvmMachine.Interpreter.StorageStore | packages/evm/src/interpreter.ts:774-798 | writes this slot of this account and nothing else, and caches the account again, which is always there; refused in a static frame |
| EvmMachine.Interpreter.TransientStorageStore | packages/evm/src/interpreter.ts:824-826 | writes this transient slot of this account and no other; refused in a static frame, and never for the key of 32 bytes and the value of at most 32 that the opcode passes |
| EvmMachine.Interpreter.BaseCall | packages/evm/src/interpreter.ts:1151-1213 | depth and balance checks, the child, payment and take-over compute the frame function; from a static frame, or as a static call, it changes no account, code or storage |
| EvmMachine.Interpreter.CreateContract | packages/evm/src/interpreter.ts:1218-1347 | a creation refunds the charge when no child is entered, else runs and settles the child |
| EvmMachine.Interpreter.SelfDestruct | packages/evm/src/interpreter.ts:1386-1490 | computes the frame function for a self-destruct: the whole balance has gone to the beneficiary, or is burned by a new account that names itself |
| Rlp.Encode | packages/rlp/src/index.ts:273-289 | the loop over the items computes the encoding |
| Rlp.Decode | packages/rlp/src/index.ts:299-318 | decodes exactly one item, the empty input as the empty string, and reports the same errors as the parser |
| Rlp.DecodeItems | packages/rlp/src/index.ts:106-110 | the loop over a list payload computes what parsing item after item gives |
| Rlp.NumberRoundTrip | packages/rlp/src/index.ts:15-34 | a length is read back from its bytes |
| Rlp.BytesRoundTrip | packages/rlp/src/index.ts:15-34 | bytes without leading zero are the bytes of the number they stand for |
| Rlp.MostSignificantFirst | packages/rlp/src/index.ts:15-34 | the first byte of a length weighs most |
| Rlp.EncodingForm | packages/rlp/src/index.ts:23-34 | bytes are the encoding of an item if and only if they have the form of the standard: single bytes below 0x80, 0x80 or 0xc0 plus the length up to 55, 0xb7 or 0xf7 plus the length of the length beyond |
| Rlp.ParseEncoding | packages/rlp/src/index.ts:52-141 | parsing an encoding followed by anything gives the item and the rest, for every nested item of less than 2^64 bytes |
| Rlp.ParseIsCanonical | packages/rlp/src/index.ts:52-141 | whatever parses is the canonical encoding of the result followed by the remainder |
| Rlp.PrefixFree | packages/rlp/src/index.ts:273-289 | no encoding is the beginning of another |
| Rlp.DecodesExactlyEncodings | packages/rlp/src/index.ts:299-318 | an input decodes to an item exactly when it is its encoding, or both are empty |
| BlobFee.FakeExponential | packages/block/src/helpers.ts:136-147 | the loop ends although its accumulator may grow first; the result is the total, divided by the denominator, of the series that starts with factor times denominator and in which each term is the exact integer quotient from the one before, until that is nothing |
| BlobFee.Shrinks | packages/block/src/helpers.ts:140-144 | each round brings the measure down: first the distance to where terms shrink, then the term |
| BlobFee.SeriesGives | packages/block/src/helpers.ts:136-147 | a number is the result if and only if it is the total of such a series divided by the denominator |
| BlobFee.ComputeBlobGasPrice | packages/block/src/helpers.ts:154-160 | the price is that result for the minimum price, the excess blob gas and the update fraction, and never below the minimum |
| BlobFee.ExponentialAtLeastFactor | packages/block/src/helpers.ts:136-147 | the result is at least the factor |
| BlobFee.ExponentialMonotone | packages/block/src/helpers.ts:136-147 | a larger factor or numerator never gives a smaller result |
| BlobFee.ExponentialBelowTaylor | packages/block/src/helpers.ts:136-147 | the result is never above the factor times the exact Taylor sum of as many terms as there were rounds |
| WitnessModel.TouchCharges | packages/evm/src/binaryTreeAccessWitness.ts:190-283 | a touch is charged exactly what it adds to the cost of the record |
| WitnessModel.TouchRecords | packages/evm/src/binaryTreeAccessWitness.ts:229-283 | a touch records its stem and chunk, as written exactly if it writes or they were written, and no other entry changes |
| WitnessModel.ChargedForRecord | packages/evm/src/binaryTreeAccessWitness.ts:190-325 | over every run of touches, commits and reverts the gas charged is the cost of the record plus what reverts forgot, every recorded chunk has its stem, and every stem is kept under the hash of its address and index |
| WitnessModel.ChargedOnce | packages/evm/src/binaryTreeAccessWitness.ts:190-325 | without reverts the gas charged is the cost of the record: each read and write once |
| WitnessModel.ChargedCoversCommitted | packages/evm/src/binaryTreeAccessWitness.ts:190-325 | the gas charged covers at least the committed stems and chunks |
| WitnessModel.MergeKeepsRooted | packages/evm/src/binaryTreeAccessWitness.ts:285-308 | merging keeps a stem under every chunk |
| WitnessModel.MergeKeepsSeparate | packages/evm/src/binaryTreeAccessWitness.ts:285-308 | after a merge cached and committed keys stay apart exactly when no merged key is cached |
| WitnessModel.MergeThenCommitKeeps | packages/evm/src/binaryTreeAccessWitness.ts:285-320 | the commit after a merge keeps every write if and only if each write of the other under a key that is cached is also a write of the cached entry |
| WitnessModel.MergeThenCommitMayForget | packages/evm/src/binaryTreeAccessWitness.ts:285-320 | for every access: when it was read here, and is still cached, and written in the other witness, the write is merged and lost at the next commit |
| WitnessModel.SlotsReadBack | packages/evm/src/binaryTreeAccessWitness.ts:54-89 | every storage slot decodes from its indices to itself |
| WitnessModel.ChunksReadBack | packages/evm/src/binaryTreeAccessWitness.ts:75-80 | a code chunk, whose offset is computed in double-precision numbers, decodes from its indices to its offset if and only if that offset is such a number, as all up to 2^53 are |
| AccessWitness.BinaryTreeAccessWitness.TouchAddressAndComputeGas | packages/evm/src/binaryTreeAccessWitness.ts:190-227 | the gas is the rise in cost of the record |
| AccessWitness.BinaryTreeAccessWitness.TouchAddress | packages/evm/src/binaryTreeAccessWitness.ts:229-283 | cache first, then committed, entries shared in place; the flags say what was recorded for the first time |
| AccessWitness.BinaryTreeAccessWitness.Commit | packages/evm/src/binaryTreeAccessWitness.ts:310-320 | cached entries become committed |
| AccessWitness.BinaryTreeAccessWitness.Revert | packages/evm/src/binaryTreeAccessWitness.ts:322-325 | cached entries are forgotten, committed ones keep even later write flags |
| AccessWitness.BinaryTreeAccessWitness.Merge | packages/evm/src/binaryTreeAccessWitness.ts:285-308 | joins the committed record of another witness, which does not change, without meeting a missing stem; every chunk still has its stem and every stem its hash |
| AccessWitness.BinaryTreeAccessWitness.RawAccesses | packages/evm/src/binaryTreeAccessWitness.ts:360-373 | reports each committed chunk once with the address and indices its key is made of, without meeting a missing stem |
| BinaryShape.InsertMeaning | packages/binarytree/src/binaryTree.ts:167-339 | insertion changes the values of its stem and of no other |
| BinaryShape.InsertAt | packages/binarytree/src/binaryTree.ts:167-339 | insertion keeps every stem below the bits that lead to it and two stems below every internal node |
| BinaryShape.OneTreeForEachMap | packages/binarytree/src/binaryTree.ts:167-339 | two trees in place with the same values are the same tree |
| BinaryShape.HistoryRefinesMap | packages/binarytree/src/binaryTree.ts:167-339 | after every history of accepted puts in which none empties a stem beside others the tree records the map of the history |
| BinaryShape.LastWriteIsHeld | packages/binarytree/src/binaryTree.ts:167-339 | after every such history each suffix of each stem holds what was last written there |
| BinaryShape.DeletionThatEmpties | packages/binarytree/src/binaryTree.ts:219-232 | for all two stems, the first not zero, and every 32-byte value: after the value is put at both, deleting it at the first empties a stem beside another |
| BinaryShape.HistoryIndependence | packages/binarytree/src/binaryTree.ts:167-339 | two such histories build the same tree exactly when they leave the same map, whatever their order |
| BinaryStore.HashDeterminesTree | packages/binarytree/src/binaryTree.ts:695-741 | with a hash that tells apart what can be hashed, trees in place have equal hashes exactly when they are equal |
| BinaryStore.HashDeterminesNode | packages/binarytree/src/binaryTree.ts:708-741 | the hash of a tree in place determines its node, stored child paths included |
| BinaryStore.StoredPathIsPrefix | packages/binarytree/src/binaryTree.ts:353-405 | the path stored with a child is how every stem below it starts |
| BinaryStore.RootDeterminesMap | packages/binarytree/src/binaryTree.ts:708-741 | equal roots stand for equal maps and the other way round |
| BinaryStore.RootFromStem | packages/binarytree/src/binaryTree.ts:708-741 | the root hash follows from a recorded stem, its values and the hashes beside its way, each bit saying on which side |
| BinaryTree.BinaryTree.FindPath | packages/binarytree/src/binaryTree.ts:417-522 | when the nodes on the way are stored, the stack holds the internal ones, then another stem that was found there; the node is found exactly when the stem is recorded |
| BinaryTree.BinaryTree.Get | packages/binarytree/src/binaryTree.ts:137-158 | the recorded values at the suffixes, nothing when the stem is not recorded, as long as the nodes on the way are stored |
| BinaryTree.BinaryTree.Connect | packages/binarytree/src/binaryTree.ts:361-395 | new internal nodes from where two stems part up to the parent |
| BinaryTree.BinaryTree.UpdateBranch | packages/binarytree/src/binaryTree.ts:353-405 | the new subtree at the end of the path is saved on top of the stack |
| BinaryTree.BinaryTree.UpdateParents | packages/binarytree/src/binaryTree.ts:256-273 | each parent up to the root is saved with its changed child |
| BinaryTree.BinaryTree.SplitRoot | packages/binarytree/src/binaryTree.ts:279-319 | a stem at the root is replaced, or split from the new stem at the first differing bit |
| BinaryTree.BinaryTree.RemoveStem | packages/binarytree/src/binaryTree.ts:219-334 | an emptied stem beside others: right below the root, if it held a value, the tree and its map are as before; else exactly the searches that end at this stem fail, and every other stem reads as recorded |
| BinaryTree.Unlinked | packages/binarytree/src/binaryTree.ts:417-522 | without the node of a recorded stem a search finds all its nodes if and only if it does not end at that stem |
| BinaryTree.BinaryTree.Put | packages/binarytree/src/binaryTree.ts:167-339 | refused, with nothing changed, exactly for unequal numbers of suffixes and values or when a value to be stored is not 32 or 64 bytes long; otherwise what can be read is what it was but for these values if and only if the put does not empty a stem beside others, and then nothing stored before is lost; after one that does, what can be read is what RemoveStem says |

## Left out

- Trie node pruning, root persistence, checkpointing databases, key hashing, proofs and partial tries. Node serialisation is the abstract `Codec`: an injective digest and an arbitrary size.
- Block bodies, events, the persisted copies of the heads, header-only puts, consensus and hardfork hooks, and failures of a batch write. Validation other than parent and number is a parameter. The genesis block is never deleted.
- Blockchain.Blockchain.ResetCanonicalHead: under a read fault the heads in memory may have moved although nothing was written, as in the source; they are still on the chain.
- Blockchain.Blockchain.DelBlock: under a read fault the same holds.
- Blockchain.Blockchain.Iterator: callbacks that change the blockchain, and the mode that releases the lock, are not part of the model.
- Opcodes, precompiles, EOF, code and memory: a frame is a script of actions with arbitrary stated amounts, and the stack of a call site (limit, stipend, what a creation returns) is part of the action. The opcode's state-gas charge for a creation and its static check are part of `EvmFrames.CreateStep`, in the order used with block access lists.
- Refund counters, logs, the self-destruct map, the deferred-refund maps, the block access list and the access witness inside `runCall`; the Chainstart exception; `skipBalance`; container code of EIP-3540. That an account has storage is a flag of the account, as its storage root is with this state manager.
- EvmMachine.Evm.RunCall: asks that no balance is negative, that a delegated call runs in an existing account, and at depth 0 that transient storage is empty, which every call at depth 0 leaves true.
- SimpleStateManager: accounts are values; sharing of account objects between the map and a running frame is modelled by writing the changed value back.
- Rlp.ParseEncoding: encodings of 2^64 bytes or more have no valid header, so it asks for fewer; no array of that size exists.
- RLP inputs other than byte strings and lists (texts, numbers, null), which are turned into bytes first, and the hexadecimal texts by way of which numbers become bytes.
- BlobFee.FakeExponential: a denominator of zero, which the source's division rejects, is excluded.
- AccessWitness.BinaryTreeAccessWitness.Merge: asks that the other witness is another object with the same hash function. Entries shared after a merge are shared in the model too, but nothing is proved about touching one witness and reading the other.
- The wrappers of the access witness for headers, code ranges and slots, and the generation of execution witnesses.
- MptTrie.Trie.ApplyBatch: a put without a value, which the source refuses, and operations of any other type are not part of the model.
- BinaryShape.HistoryRefinesMap: asks of every put of a history what BinaryTree.BinaryTree.Put asks.
- BinaryTree.BinaryTree.Put: asks that what it hashes does not hash to zero by the source's rule for 64 zero bytes: no stored value is 64 zero bytes, and the stem of 248 zero bits is not stored without values. Writing again after a put that left a stem unreadable is not part of the model, reading is. Suffixes are below 256. Stems are their 248 bits, and the bytes of a stem and of a stored node are not modelled.
- BinaryStore.HashDeterminesTree: assumes that hashes of stems and of pairs are told apart, which the source does not mark, and that values can be recovered from the hash of a stem node. The assumption is about stems whose values are 32 or 64 bytes long, none of them all zero in 64 bytes, and not about the zero stem without values, which hashes like no node.
- WitnessModel.ChunksReadBack: chunk numbers are integers up to 2^53, up to where the source's numbers count without gaps.
- EvmPayment.ScheduledPayment: the opcode's regular cost is a parameter, and an empty account with something to run stands for a precompile. The limit of a creation is chosen after its charges, so it always fits.
