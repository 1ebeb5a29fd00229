# hutils, verified

This project models the data structures and codecs of hutils and the flag
merger of hgmake in Dafny, and proves what they are for.  Where the source
changes memory step by step the model does too: nodes with link fields, arrays
that are written in place, loops over ring buffers.  Every such method is
proved to make exactly what a specification on values says, and the properties
are theorems about these specifications, on all inputs.

| file | models |
|---|---|
| RbShape.dfy, RbTree.dfy | the red-black tree: shapes and their colours; nodes with parent links |
| SplayTree.dfy | the top-down splay tree |
| HashTable.dfy | the Robin Hood hash table, against a map |
| Vector.dfy | the vector with a front margin, against a sequence |
| Pool.dfy | the page pool |
| StableSort.dfy, TailQueue.dfy | the tail queue and its merge sort |
| FlagText.dfy, FlagSpec.dfy, FlagMerge.dfy, FlagPolicy.dfy, FlagFile.dfy | the flag merger, from the texts of files to the text that is printed |
| Utf8.dfy | the UTF-8 decoder, the repair and the concatenation |
| Bitpack.dfy | the bit packer and unpacker |
| LexSpec.dfy, LexShape.dfy, Lexer.dfy | the lexer with its 256-byte ring, against a tokeniser on the whole text and the forms of its tokens |
| IntegerText.dfy, ConfigSpec.dfy, ConfigRoundTrip.dfy, ConfigFile.dfy | configuration collections: loading, writing, changing |
| Sequences.dfy, Ordered.dfy, Powers.dfy, Chars.dfy | what several of them share: facts about sequences and keys, powers of two, sorts of characters |

The invariants are the `Valid` predicates of the classes: link agreement, order
and colours of the red-black tree, the Robin Hood order and the map of the hash
table, the three bounds of the vector, the accounts of the pool's pages, and the
part of the text that the lexer's ring holds.  Every operation requires and
keeps them, so that they hold over all runs.

How the model says things:

- A position in a tree is a path from the top and the subtree there, so that a
  loop that climbs by parent links is a recursion on the path.  A back link of a
  tail queue is the owner (a list head or an entry) whose forward link it is.
- Keys of both trees are integers; any total order of keys can be read as one.
- The hash table is generic in its entries; key and hash function are parameters.
  A mask is written as the remainder, and `MaskIsRemainder` says why.
- C strings are sequences of characters without a zero.  A pattern of a
  floating-point number is its 32 bits, in the layout of section 3.4 of
  IEEE 754-2008.  A double is its 64 bits, and what the C library computes of
  doubles (reading, printing, conversion) is the parameter `Libc`.
- Where the program stops with an error (`errx`, a failed size or width check),
  the method returns a flag that says so.  Asserted bounds of a caller's index
  are preconditions.

What the proofs found, where the code and what is said about it differ:

- The vector drops its first element at the front only without a front margin
  (or with one element): `Vector.PopFrontExact`.  A push at each end is enough to
  get there: `Vector.PushAroundAndPop`.  A resize to a larger size
  makes the capacity larger and not the size: `Vector.Vector.Resize`.
- Shutting a pool down keeps its free list: `Pool.Pool.Shutdown`,
  `Pool.ShutDownTooSoon`.
- The comment on the merging of CPPFLAGS keeps the first "-I."; the code keeps
  the last one: `FlagMerge.LastIncludeIsWritten`.
- CPPFLAGS keep one definition per name exactly when no other flag sorts between
  two definitions of a name: `FlagSpec.OnePerNameExactly`.  That is so when every
  definition gives a value, and not for a bare one: `FlagSpec.BareDefinition`.
- A name that ends a line, like "-I", is read without a value; written again
  with another flag after it, it takes that flag as its value:
  `FlagText.NameTakesNext`.  A newline behind a backslash or a lone hyphen is kept
  in the flag, and the merged file is one that the merger stops with:
  `FlagFile.NewlineKept`.  `FlagFile.WrittenReads` says exactly which files read
  back as they were written.
- The UTF-8 decoder takes codes above 0x10ffff, unlike section 3 of RFC 3629:
  `Utf8.GetCodeExactly`, `Utf8.CodeAboveUnicode`.
- A floating-point pattern with an exponent outside of the narrow format does
  not come back, zero among them: `Bitpack.FloatComesBack`, `Bitpack.ZeroIsLost`.
- The probe of the hash table never counts its distance, so that it is a full
  linear probe; erasing does not lower the number of entries, which is an upper
  bound only.  Both are kept as they are.
- A config that was written as an integer is loaded as a number of any kind:
  `ConfigRoundTrip.RoundTrip`.

`dafny verify dfyconfig.toml` checks the whole project.

## Model

| member | source | states |
|---|---|---|
| RbShape.InsertFixInorder | hutils/include/hutils/tree.h:405-447 | the insert fix-up, from any position of any tree, moves no node in symmetric order |
| RbShape.InsertFixRedBlack | hutils/include/hutils/tree.h:405-447 | from a red node anywhere in an otherwise valid tree the fix-up ends in a tree with a black root, no red node under a red one and equal black counts on all paths |
| RbShape.RemoveStepSettled | hutils/include/hutils/tree.h:453-520 | a position that is one black short has the siblings the turn reads, and the turn either settles the whole tree or leaves a position that is one black short |
| RbShape.RemoveFixInorder | hutils/include/hutils/tree.h:449-523 | the delete fix-up moves no node in symmetric order |
| RbShape.RemoveFixRedBlack | hutils/include/hutils/tree.h:449-523 | from any position that is one black short the delete fix-up ends in a valid red-black tree |
| RbShape.SpliceInorder | hutils/include/hutils/tree.h:534-573 | moving the successor into the place of a node with two children leaves exactly that node out of the order |
| RbShape.RemovedInorder | hutils/include/hutils/tree.h:525-590 | a removal with its fix-up leaves the order without that node |
| RbShape.RemovedRedBlack | hutils/include/hutils/tree.h:525-590 | a removal from a red-black tree, at any node, gives a red-black tree |
| RbShape.FirstAfterIsFirst | hutils/include/hutils/tree.h:671-679 | the ancestor that the climb to the right finds is the first node after the position |
| RbShape.LastBeforeIsLast | hutils/include/hutils/tree.h:693-701 | the ancestor that the climb to the left finds is the last node before the position |
| RbShape.HeightBound | hutils/include/hutils/tree.h:46-54 | 2^height <= (n + 1)^2 for a red-black tree of n nodes, that is, height at most 2 lg(n + 1) |
| RbTree.Head.RotateLeft | hutils/include/hutils/tree.h:335-353 | relinks exactly one edge; child and parent links of the whole tree agree before and after |
| RbTree.Head.RotateRight | hutils/include/hutils/tree.h:355-373 | the mirror image of the left rotation |
| RbTree.Head.InsertColorStep | hutils/include/hutils/tree.h:409-445 | one turn keeps all links and the result of the fix-up, and climbs, so that the loop ends |
| RbTree.Head.InsertColor | hutils/include/hutils/tree.h:405-447 | the loop relinks the nodes into exactly the fixed-up shape |
| RbTree.Head.RemoveColorStep | hutils/include/hutils/tree.h:453-520 | one turn, with all its rotations and recolourings on both sides, does what the step on shapes says |
| RbTree.Head.RemoveColor | hutils/include/hutils/tree.h:449-523 | the loop ends and relinks the nodes into exactly the fixed-up shape |
| RbTree.Head.SpliceNext | hutils/include/hutils/tree.h:534-572 | takes the successor out of the right side and puts it into the place of the removed node, with all links right |
| RbTree.Head.RemoveAt | hutils/include/hutils/tree.h:525-590 | removal at a node gives the shape whose order and colours are proved on shapes |
| RbTree.Head.Insert | hutils/include/hutils/tree.h:592-621 | keeps search order, links and colours; gives back the node with the key and changes nothing, or returns nothing and adds exactly the new node at its place |
| RbTree.Head.Remove | hutils/include/hutils/tree.h:525-590 | keeps search order, links and colours for any member; exactly that node is gone and the others keep their order |
| RbTree.Head.Find | hutils/include/hutils/tree.h:623-639 | returns the node with the key, and nothing only if there is none |
| RbTree.Head.NFind | hutils/include/hutils/tree.h:641-660 | returns the least node that is not below the key |
| RbTree.Head.MinMax | hutils/include/hutils/tree.h:706-719 | returns the first or the last node in order, and nothing for the empty tree |
| RbTree.Head.Next | hutils/include/hutils/tree.h:662-682 | returns the next node in order by child and parent links alone |
| RbTree.Head.Prev | hutils/include/hutils/tree.h:684-704 | returns the previous node in order by child and parent links alone |
| RbTree.Head.StepsInvert | hutils/include/hutils/tree.h:662-704 | one node is next after another if and only if the other is previous to it |
| RbTree.Head.ForEach | hutils/include/hutils/tree.h:733-736 | visits every node once, in ascending order |
| RbTree.Head.HeightIsLogarithmic | hutils/include/hutils/tree.h:46-54 | every valid tree of nodes is within the height bound |
| SplayTree.SplayedInorder | hutils/include/hutils/tree.h:202-235 | a splay, from any three parts, moves no node in symmetric order |
| SplayTree.SplayedSides | hutils/include/hutils/tree.h:202-235 | after a splay everything left of the root comes before the probe and everything right of it after: the root is the key if it is there and otherwise a neighbour of it |
| SplayTree.PathHalved | hutils/include/hutils/tree.h:203-234 | every node that the search meets, at any depth d, ends at depth d / 2 + 2 or less, which is what the rotation of two steps in one direction is for |
| SplayTree.Head.Splay | hutils/include/hutils/tree.h:202-271 | the loop ends and links the nodes into exactly the splayed shape, for a key and for both ends |
| SplayTree.Head.Assemble | hutils/include/hutils/tree.h:105-110 | joining through the local header node gives the tree that both spines and the middle make |
| SplayTree.Head.StepLeft | hutils/include/hutils/tree.h:212-221 | one turn to the left keeps the three parts linked and apart, and the result of the splay |
| SplayTree.Head.StepRight | hutils/include/hutils/tree.h:222-232 | one turn to the right keeps the three parts linked and apart, and the result of the splay |
| SplayTree.Head.KeyAtRoot | hutils/include/hutils/tree.h:126-128 | after a splay the key is in the tree if and only if it is at the root |
| SplayTree.Head.Find | hutils/include/hutils/tree.h:120-130 | keeps the contents, returns the node with the key at the root, and nothing only if there is none |
| SplayTree.Head.Insert | hutils/include/hutils/tree.h:157-179 | adds exactly the new node at its place and makes it the root, or gives back the node with the key and keeps the contents |
| SplayTree.Head.NothingOnTheRight | hutils/include/hutils/tree.h:193-195 | splaying the left side towards a key above it leaves the root without a right child, so nothing is lost when the right side is hung there |
| SplayTree.Head.Remove | hutils/include/hutils/tree.h:181-200 | exactly the node with the key is gone, or nothing changes and nothing is returned |
| SplayTree.Head.Next | hutils/include/hutils/tree.h:132-144 | brings the node to the root and returns the next one in order |
| SplayTree.Head.MinMax | hutils/include/hutils/tree.h:146-151 | brings the first or the last node to the root and returns it |
| SplayTree.Head.ForEach | hutils/include/hutils/tree.h:285-288 | although every step reshapes the tree, visits every node once, in ascending order |
| HashTable.MaskIsRemainder | hutils/include/hutils/hashtable.h:35-35 | masking with a power of two less one is the remainder, on the bits of any number |
| HashTable.NeverAround | hutils/include/hutils/hashtable.h:64-107 | with a free slot no entry is displaced all the way around, so distances never wrap |
| HashTable.Table.Absent | hutils/include/hutils/hashtable.h:91-92 | at the first point of displacement a key that was not met before is not in the table |
| HashTable.Table.Met | hutils/include/hutils/hashtable.h:87-90 | a key that is met is the one that was to be inserted, before any displacement: the assertion on line 88 holds |
| HashTable.Table.Displaced | hutils/include/hutils/hashtable.h:92-103 | swapping an entry that is nearer to its home keeps the Robin Hood order and the map |
| HashTable.Table.InsertInto | hutils/include/hutils/hashtable.h:64-107 | the probe loop ends; a present key changes nothing and its entry is returned; an absent one is added to the map, the order is kept and the entry returned is the new one |
| HashTable.Table.Rehash | hutils/include/hutils/hashtable.h:108-131 | keeps the map, into an array of any power of two that holds all entries; the table is a valid one if and only if a slot stays free |
| HashTable.Table.SizeAbove | hutils/include/hutils/hashtable.h:180-182 | the least power of two above the goal |
| HashTable.Table.Insert | hutils/include/hutils/hashtable.h:175-186 | the table is the map with the key, a present key keeps its entry, and a free slot always remains |
| HashTable.Table.WalkedOut | hutils/include/hutils/hashtable.h:51-53 | a free slot on the walk from the home slot means that the key is not in the map |
| HashTable.Table.FindIndex | hutils/include/hutils/hashtable.h:39-63 | the full probe ends and returns the entry of a key of the map, and nothing otherwise |
| HashTable.Table.HoleMoves | hutils/include/hutils/hashtable.h:154-158 | shifting an entry back into the hole keeps all entries in Robin Hood order but for the new hole |
| HashTable.Table.HoleClosed | hutils/include/hutils/hashtable.h:147-153 | a hole before a free slot or an entry at home is no hole any more |
| HashTable.Table.Erase | hutils/include/hutils/hashtable.h:132-160 | the shift ends, gives back the entry and takes exactly its key out of the map |
| HashTable.Table.Shutdown | hutils/include/hutils/hashtable.h:187-200 | the loop frees every item of the map exactly once, and leaves a table without an array |
| Vector.Vector.MemMove | hutils/include/hutils/vector.h:42-50 | an overlapping move of a range that lies within the capacity |
| Vector.Vector.TryGrow | hutils/include/hutils/vector.h:97-103 | room for one more element behind the last one, with the memory kept |
| Vector.Vector.TryShrink | hutils/include/hutils/vector.h:104-110 | the three asserted bounds, with the contents kept |
| Vector.Vector.Insert | hutils/include/hutils/vector.h:178-201 | opens one slot at the position, from whichever end is nearer, keeps all other elements in order and the three bounds |
| Vector.Vector.Erase | hutils/include/hutils/vector.h:142-163 | the contents without the element at the position, and the three bounds |
| Vector.Vector.PushBack | hutils/include/hutils/vector.h:217-223 | one slot behind the contents |
| Vector.Vector.PushFront | hutils/include/hutils/vector.h:224-237 | one slot before the contents; a margin shrinks by one, and without one the new margin is the chunk less one |
| Vector.Vector.PopBack | hutils/include/hutils/vector.h:202-208 | the contents without the last element |
| Vector.Vector.PopFront | hutils/include/hutils/vector.h:209-216 | what is left when the data moves to index 0 and the margin stays |
| Vector.PopFrontExact | hutils/include/hutils/vector.h:209-216 | dropping the front drops the first element of whatever contents if and only if there is no margin or just one element |
| Vector.PopFrontWithMargin | hutils/include/hutils/vector.h:209-216 | of two elements behind any margin the second one is lost, and without a margin the first one |
| Vector.PushAroundAndPop | hutils/include/hutils/vector.h:209-237 | one element pushed at each end of an empty vector and the front popped: the front element stays, unless the chunk is one |
| Vector.Vector.Resize | hutils/include/hutils/vector.h:243-247 | keeps what fits; the size is the one asked for if and only if it is not larger than before |
| Pool.Pool.Alloc | hutils/include/hutils/pool.h:61-87 | hands out a node that is not live: the first freed one, or the next one of the last page, or the first one of a new page exactly when there is no room |
| Pool.Pool.Free | hutils/include/hutils/pool.h:88-114 | the node is not live any more; its page is released exactly when it was the last live node there, with all nodes of the page off the free list; otherwise it goes to the tail of the free list on the last page and to the head elsewhere |
| Pool.Pool.TakeOff | hutils/include/hutils/pool.h:105-109 | the loop takes exactly the nodes of the page off the free list and keeps the order of the others |
| Pool.Pool.NothingLeft | hutils/include/hutils/pool.h:18-23 | without live nodes there is neither a page nor a freed node |
| Pool.Pool.FreeAll | hutils/include/hutils/pool.h:88-114 | freeing all live nodes, in any order, empties both lists |
| Pool.Pool.Shutdown | hutils/include/hutils/pool.h:121-130 | the pages are gone but the free list is not: the pool can be used again if and only if the free list was empty |
| Pool.ShutDownTooSoon | hutils/include/hutils/pool.h:61-130 | two nodes taken and one given back are enough for a pool that cannot be used after its shutdown |
| Pool.Run | hutils/include/hutils/pool.h:61-114 | over any run of requests, after every one of them: the nodes held, the freed ones, the pages and their offsets follow from those before as the request says (a new page exactly when the last one is full), no node is held twice or held and freed, and none that was handed out on a page is lost |
| TailQueue.List.InsertHead | hutils/include/hutils/queue.h:467-475 | one entry more at the head, with forward links, back links and tail right |
| TailQueue.List.InsertTail | hutils/include/hutils/queue.h:477-482 | one entry more at the tail, with forward links, back links and tail right |
| TailQueue.List.Remove | hutils/include/hutils/queue.h:501-510 | exactly that entry is gone, with forward links, back links and tail right |
| TailQueue.List.Last | hutils/include/hutils/queue.h:428-430 | the last entry, through the owner of the tail |
| TailQueue.List.Prev | hutils/include/hutils/queue.h:431-432 | the previous entry, through the owner of the back link |
| TailQueue.FindMiddle | hutils/include/hutils/tailqsort.h:48-58 | the two neighbours at the middle; the first one is there, as asserted |
| TailQueue.HackSplit | hutils/include/hutils/tailqsort.h:60-68 | six link writes make two well-linked lists of one |
| TailQueue.MergeLists | hutils/include/hutils/tailqsort.h:74-102 | relinks the nodes of two lists into the stable merge of both |
| TailQueue.Sort | hutils/include/hutils/tailqsort.h:33-103 | the recursion ends and relinks the same nodes, in place, into the merge sort of the list |
| TailQueue.SortValues | hutils/include/hutils/tailqsort.h:25-32 | sorting the nodes sorts their values |
| TailQueue.SortNodes | hutils/include/hutils/tailqsort.h:25-32 | the relinked nodes themselves are in order, and nodes whose values compare equal keep their order |
| StableSort.SortElements | hutils/include/hutils/tailqsort.h:25-32 | sorting keeps every element as often as it was there |
| StableSort.SortSorted | hutils/include/hutils/tailqsort.h:25-32 | the result is sorted, for any comparison that is a total preorder |
| StableSort.SortStable | hutils/include/hutils/tailqsort.h:25-32 | elements that compare equal keep their order |
| StableSort.StableSortUnique | hutils/include/hutils/tailqsort.h:25-32 | there is no other sorted sequence with the same elements in stable order |
| StableSort.SortImage | hutils/include/hutils/tailqsort.h:25-32 | sorting carriers by what they carry is sorting what they carry |
| StableSort.RankedSorted | hutils/include/hutils/tailqsort.h:25-32 | elements of any type, references too, come out sorted if the comparison ranks those that are there |
| StableSort.RankedStable | hutils/include/hutils/tailqsort.h:25-32 | and those of them that compare equal keep their order |
| FlagText.ReadLine | hgmake/common.c:181-239 | by the characters alone: each flag is a name (-framework and a blank, a hyphen and a character, or nothing), blanks, and a word, in which a blank is only where the word has a backslash before it and which ends at a blank that has none; -W stands alone; the flags follow one another up to the blanks that end the line; it stops exactly at a framework flag without a blank |
| FlagText.WordEndExactly | hgmake/common.c:222-229 | a word ends at the line's end or at the first blank that no backslash of the word comes before, and nowhere else |
| FlagText.FlagExactly | hgmake/common.c:187-233 | what is read at a position is a flag by its characters, ending there, and nothing else is one |
| FlagText.LineExactly | hgmake/common.c:181-239 | a line is read as given flags if and only if its characters are those flags, and is an error if and only if it has a framework flag without a blank |
| FlagText.SettledExactly | hgmake/common.c:187-233 | a flag that is written and followed by a space is read back, and reading goes on right after it, if and only if it is -W or has a value that is a word with no backslash at its end; other than that only a name is read back that nothing but blanks follows |
| FlagText.JoinedReads | hgmake/common.c:181-239 | on all flags, with or without a newline at the end: a line reads back as the flags written into it if and only if every flag is settled, but the last one may be just a name |
| FlagText.ReadIsProper | hgmake/common.c:181-239 | every flag that is read is not empty and starts with no blank |
| FlagText.NameTakesNext | hgmake/common.c:210-233 | any name with a word after it is read back as one flag |
| FlagText.NameAlone | hgmake/common.c:210-233 | -I alone is read back, and -I before -Da=1 is not |
| FlagSpec.PrefixInterval | hgmake/common.c:92-96 | strings with the same start lie together in the order of strcmp |
| FlagSpec.StrCmpExactly | hgmake/common.c:92-96 | the comparison is that of strcmp: below if and only if at the first difference the character is less or the string has ended, and equal only for equal strings |
| FlagSpec.CompareFlagsOrders | hgmake/common.c:92-96 | strcmp is a total preorder of flags, which the sort needs |
| FlagSpec.FirstOnlyKeeps | hgmake/common.c:264-283 | every flag once, and none is lost |
| FlagSpec.LastIsFirstReversed | hgmake/common.c:345-367 | keeping the last occurrences is keeping the first ones of the reversed list |
| FlagSpec.PassesIdempotent | hgmake/common.c:264-283 | a second pass of either kind changes nothing |
| FlagSpec.SortedFlagsOrdered | hgmake/common.c:292-293 | after the stable sort equal flags are in the order they came in |
| FlagSpec.SurvivesExactly | hgmake/common.c:300-333 | on all inputs, definitions and others: a flag survives if and only if every later one of its name (or, for other flags, every later copy) is parted from it by a flag that sorts between them |
| FlagSpec.SurvivorBetween | hgmake/common.c:300-333 | between a survivor and a later flag of its name another flag survives |
| FlagSpec.OtherSurvives | hgmake/common.c:323-331 | of the flags that define nothing exactly the last occurrence survives, on all inputs |
| FlagSpec.DefineSurvives | hgmake/common.c:310-331 | where the definitions of each name lie together, exactly the largest one of a name survives, and of equal ones the last |
| FlagSpec.NameSurvives | hgmake/common.c:300-333 | every defined name keeps at least one definition, on all inputs |
| FlagSpec.OnePerNameExactly | hgmake/common.c:285-333 | one definition per name survives if and only if no other flag sorts between two definitions of one name |
| FlagSpec.ValuesLieTogether | hgmake/common.c:285-333 | that is so when every definition has an equals sign right after its name |
| FlagSpec.BareDefinition | hgmake/common.c:310-331 | and is not so for -Da, -Da0= and -Da=1: two definitions of a survive |
| FlagMerge.WriteFirst | hgmake/common.c:264-283 | CC: the first occurrences, in order, each followed by a space |
| FlagMerge.KeepFirst | hgmake/common.c:368-380 | LDFLAGS and LIBS: the list edited in place to its first occurrences, in order |
| FlagMerge.KeepLast | hgmake/common.c:356-367 | CFLAGS: the list edited in place, backwards, to its last occurrences, in order |
| FlagMerge.WritePrevious | hgmake/common.c:308-326 | the decision on the previous flag is the grouping of the two flags, for definitions and for other flags |
| FlagMerge.Thin | hgmake/common.c:294-333 | the pass over the sorted list takes exactly those entries out of the original list, which is threaded through the same flags, that give way to the next one |
| FlagMerge.MergeCppflags | hgmake/common.c:285-343 | what is written is the flags that survive, in the order they were read |
| FlagMerge.SurvivingIs | hgmake/common.c:334-342 | what is written is in the order it was read and is exactly what survives |
| FlagMerge.CppflagsWritten | hgmake/common.c:285-343 | when every definition gives a value: of each name the last copy of the largest definition, and of every other flag the last occurrence |
| FlagMerge.LastIncludeIsWritten | hgmake/common.c:288-290 | of the flags -I. -Da=1 -Da=0 -I. of the comment exactly -Da=1 and the last -I. are written, in this order |
| FlagMerge.MergedAgain | hgmake/common.c:285-343 | merging the written CPPFLAGS once more changes nothing, on all inputs |
| FlagPolicy.FirstOnlyPlaces | hgmake/common.c:264-283 | every flag once, and one before another if and only if its first place is before the first place of the other |
| FlagPolicy.LastOnlyPlaces | hgmake/common.c:345-367 | every flag once, and one before another if and only if its last place is before the last place of the other |
| FlagPolicy.RemainsExactly | hgmake/common.c:285-333 | a definition remains if and only if every greater one of its name, in the order of the characters, is parted from it by another flag in this order |
| FlagPolicy.SurvivingRemains | hgmake/common.c:285-343 | exactly the flags that remain are written, in the order they are read |
| FlagPolicy.MergedIs | hgmake/common.c:140-389 | of all files: CC and LDFLAGS by first places, CFLAGS by last places, LIBS by the last file that has the flag, later files first, and by first places in it; CPPFLAGS the definitions that remain, in reading order |
| FlagMerge.GatherLibs | hgmake/common.c:165-169 | the libraries of later files go before those of earlier ones, in the order they have in each file |
| FlagMerge.Prepend | hgmake/common.c:246-252 | moving the last entry to the head until nothing is left puts one list in front of the other in order |
| FlagFile.LinesConcat | hgmake/common.c:170-176 | what comes after a newline is read as other lines, wherever lines are cut |
| FlagFile.OneLineExactly | hgmake/common.c:170-176 | a text with a newline behind it is read as one line if and only if it has no newline in it and fits the buffer |
| FlagFile.LinesExactly | hgmake/common.c:170-176 | the lines of a text are the only ones that make it up, where each ends behind its newline, or with 65535 characters, or with the text |
| FlagFile.ReadExactly | hgmake/common.c:155-245 | a file is read if and only if it has five lines of flags, and these are those of CC, CPPFLAGS, CFLAGS, LDFLAGS and LIBS in this order |
| FlagFile.ReadFile | hgmake/common.c:155-245 | from the text of a file: five lines of flags, or an error |
| FlagFile.MergeFiles | hgmake/common.c:140-389 | an error exactly when one of the files is wrong; else every line has, each followed by a space, the flags of its variable from all files: for CC and LDFLAGS each once in the order of first places, for CFLAGS each once in the order of last places, for LIBS by the last file that has it, later files first, for CPPFLAGS exactly those that remain, in reading order |
| FlagFile.MergeTexts | hgmake/hconf_merge.c:20-32 | the text that the merging program prints: the five lines that MergeFiles describes, in the order of the variables, each with a newline |
| FlagMerge.MergedTwice | hgmake/common.c:140-389 | what was merged, from any files, and is merged once more on its own stays as it is |
| FlagFile.WrittenReads | hgmake/common.c:155-245 | the text that was written, read as a file, is the flags that were written if and only if no flag has a newline in it, no line is too long for the buffer, and in each line every flag is settled, but the last one may be just a name |
| FlagFile.NewlineKept | hgmake/common.c:213-227 | a newline behind a backslash or a lone hyphen is kept in the flag: the file is read, and what it is merged to is not |
| FlagFile.MergedFileAgain | hgmake/common.c:140-389 | a merged file that reads back, merged alone, is written the same again |
| Utf8.GetCodeExactly | hutils/src/utf8.c:25-81 | decoding succeeds exactly on the shortest encoding of a code up to 0x1fffff that is no surrogate, whatever follows, and with its length |
| Utf8.CodeAboveUnicode | hutils/src/utf8.c:65-79 | 0x110000 is decoded |
| Utf8.RepairedIsEncoded | hutils/src/utf8.c:99-145 | the repaired bytes are the encodings of the codes, one for each |
| Utf8.RepairExactly | hutils/src/utf8.c:99-145 | there is only one such cut of any bytes, and the specification of the repair is it: bytes, length and number of replacements |
| Utf8.EncodedIsRead | hutils/src/utf8.c:25-81 | any encoded codes are read back one by one, whatever bytes follow |
| Utf8.RepairedTwice | hutils/src/utf8.c:99-145 | repairing is the identity on its own results, keeps the codes and replaces nothing in them |
| Utf8.WellFormedExactly | hutils/src/utf8.c:99-145 | a string is kept as it is if and only if nothing is replaced |
| Utf8.ConcatCodes | hutils/src/utf8.c:83-97 | a well-formed string before another one: the codes of both, one after the other |
| Utf8.CodeAt | hutils/src/utf8.c:160-169 | at the start of the k-th code exactly that code is read, and its length leads to the next one |
| Utf8.Measure | hutils/src/utf8.c:106-120 | the first pass counts the codes and the bytes of the result |
| Utf8.Create | hutils/src/utf8.c:99-145 | by the bytes alone: the bytes are cut, in order, into encodings, which are kept, and single bytes that no encoding starts at, each of which becomes ef bf bd and is counted; the length is the number of pieces, and a zero is behind them |
| Utf8.Concat | hutils/src/utf8.c:83-97 | the bytes and the codes of both strings, with all counts right |
| Utf8.ReadExactly | hutils/src/utf8.c:25-81 | in a well-formed string a code can be read at a byte position if and only if one starts there, and it is that code, with the next one behind it |
| Utf8.Text.Get | hutils/src/utf8.c:160-169 | the code that starts at the byte position, and nothing exactly when none starts there |
| Bitpack.BitPacker.PackWord | hutils/src/bitpack.c:78-104 | the stream of bits grows by exactly the lowest bits of the word, whatever the buffer held before; a wrong width or no room is an error before anything is written |
| Bitpack.BitPacker.PackString | hutils/src/bitpack.c:65-76 | the stream grows by the characters and a zero, or, when they do not fit, by as many whole characters as fit |
| Bitpack.BitPacker.UnpackWord | hutils/src/bitpack.c:175-206 | the word that holds exactly the next bits, at any position, with zeros above |
| Bitpack.HeldOnce | hutils/src/bitpack.c:190-205 | there is only one word that holds given bits |
| Bitpack.BitPacker.StringLength | hutils/src/bitpack.c:146-157 | the first zero, or an error exactly when there is none |
| Bitpack.BitPacker.UnpackString | hutils/src/bitpack.c:140-173 | the string at the position, in an array of exactly its length and a zero; an error only if no string is there |
| Bitpack.StringOnce | hutils/src/bitpack.c:140-173 | there is only one string at a position |
| Bitpack.BitPacker.PackFloat | hutils/src/bitpack.c:32-63 | the stream grows by sign, exponent and mantissa of the narrow format; wrong widths are an error |
| Bitpack.BitPacker.UnpackFloat | hutils/src/bitpack.c:106-138 | the pattern made of the fields that were read |
| Bitpack.FieldsRead | hutils/src/bitpack.c:106-138 | the three fields of a packed pattern are read back, and there is nothing above them |
| Bitpack.PartsPlaced | hutils/src/bitpack.c:48-60 | in a packed pattern the upper bits of the mantissa are lowest, above them is the exponent with the bias of its own width, and the sign is on top |
| Bitpack.FloatExactly | hutils/src/bitpack.c:32-63 | a pattern comes back without the mantissa bits that do not fit if and only if its biased exponent is in [128 - 2^(e-1), 127 + 2^(e-1)], for all widths |
| Bitpack.FloatComesBack | hutils/src/bitpack.c:32-63 | what comes back for a floating-point field is that pattern if and only if its exponent is in this range |
| Bitpack.ZeroIsLost | hutils/src/bitpack.c:32-63 | so that zero does not come back with fewer than eight exponent bits |
| Bitpack.RoundTrip | hutils/src/bitpack.c:24-206 | packing any list of numbers, strings and patterns that fits into any buffer and unpacking it from its start gives every field back, the patterns as FloatComesBack says; it is an error exactly when the fields do not fit |
| Lexer.Lexer.Fill | hutils/src/lexer.c:289-300 | copies a run of characters around the end of the ring and touches no other place |
| Lexer.Lexer.Refill | hutils/src/lexer.c:276-305 | the ring still holds the text from the current position on, and more of it |
| Lexer.Lexer.Peek | hutils/src/lexer.c:267-307 | the character k ahead in the whole text, its end, or an overflow from 256 on |
| Lexer.Lexer.Extract | hutils/src/lexer.c:33-59 | the next characters of the text; line and column follow |
| Lexer.Lexer.SkipBlanks | hutils/src/lexer.c:142-166 | goes to the first position that is neither white space nor behind a number sign of its line |
| Lexer.Lexer.TokenGet | hutils/src/lexer.c:133-265 | by the characters alone: after white space and comments the token is the longest start of the window of 256 characters that is a name, a hexadecimal number or a number, or else a quoted string, an error, or one character, with its text and the position after it; line and column follow the text |
| LexShape.NumberExactly | hutils/src/lexer.c:223-260 | a number token is the longest start of the window of the form sign, digits, point, digits, with one digit at least, and e or E, a sign or none and digits, if there are any; there is none at 0x |
| LexShape.HexExactly | hutils/src/lexer.c:203-222 | a hexadecimal token is 0x and the longest run of hexadecimal digits; without any it is the error |
| LexShape.AlnumExactly | hutils/src/lexer.c:168-179 | a name is the longest run of letters, digits and underscores that starts with no digit |
| LexShape.LiteralExactly | hutils/src/lexer.c:180-202 | a literal is what is between two quotes, has no quote and fits the window |
| LexShape.UnterminatedExactly | hutils/src/lexer.c:180-202 | it is the error if and only if the text ends, within the window, without a second quote |
| LexShape.SymbolExactly | hutils/src/lexer.c:261-263 | any other single character, at which no other token starts |
| LexShape.StartExactly | hutils/src/lexer.c:142-166 | a token starts at the first position that is neither white space nor in a comment |
| LexShape.NextExactly | hutils/src/lexer.c:133-265 | the tokeniser on the whole text gives what these forms say, and nothing else meets them |
| Lexer.Lexer.Skip | hutils/src/lexer.c:110-131 | goes past the first occurrence of the character if and only if there is one, and to the end otherwise |
| LexSpec.LineCounts | hutils/src/lexer.c:49-55 | the line is one more than the number of newlines in the text before the position |
| LexSpec.ColumnCounts | hutils/src/lexer.c:49-55 | the column is one more than the number of characters behind the last newline |
| LexSpec.Run | hutils/src/lexer.c:171-176 | a run of characters of one sort goes on as far as possible, within the window, and no further |
| IntegerText.DecimalRead | hutils/src/config.c:259-288 | an integer that is printed is the one that its text is read as |
| IntegerText.IntegerExactly | hutils/src/config.c:275-288 | on any text: the integer is the number whose digits, each at its place, come after white space, a sign and a hexadecimal prefix, up to the first that is no digit of the base, which is 16 behind 0x and 10 else, held within 64 bits and then cut to the lowest 32 |
| IntegerText.HexRead | hutils/src/config.c:280-282 | 0x and the hexadecimal digits of a number in either case are read as that number |
| IntegerText.DecimalTextRead | hutils/src/config.c:283-286 | white space, a sign, decimal digits and any tail are read as the number with its sign |
| IntegerText.DecimalExactly | hutils/src/config.c:259-273 | what is printed for an integer is a hyphen, if it is negative, and its decimal digits without zeros in front |
| ConfigSpec.StatementExactly | hutils/src/config.c:348-416 | a statement is a bracket, a new name and a bracket, or a new name in the last section, an equals sign and a value, and makes exactly one section or config more |
| ConfigSpec.RefusedExactly | hutils/src/config.c:348-419 | it is refused if and only if a token is wrong: no bracket or name at first, no name, a name that is there or no closing bracket in a header, no section, a name that is there, no equals sign or no value in a config |
| ConfigSpec.LoadedExactly | hutils/src/config.c:340-426 | on any text whose literals fit the window: what is loaded is what its statements make one after the other up to its end, and nothing is loaded if and only if one is refused |
| ConfigSpec.LoadedUnique | hutils/src/config.c:340-426 | on any text whose literals fit the window no section and no config of a section is loaded twice |
| ConfigRoundTrip.LexNumeral | hutils/src/lexer.c:223-263 | a decimal integer or fraction at the end of a line, that fits the window, is one number token |
| ConfigRoundTrip.LexDecimal | hutils/src/lexer.c:223-263 | a printed integer at the end of a line is one number token |
| ConfigRoundTrip.LexLiteral | hutils/src/lexer.c:180-202 | a quoted string is one literal token, with that string, if and only if it has no quote in it and fits the window |
| ConfigRoundTrip.ConfigLoaded | hutils/src/config.c:382-416 | a printed config, of any of the three kinds, is loaded as one more in the last section |
| ConfigRoundTrip.ReloadedKeeps | hutils/src/config.c:243-288 | what such a config keeps: a string all of it, an integer its value, and a number its floating-point value if and only if the C library reads the printed text as that value |
| ConfigRoundTrip.RoundTrip | hutils/src/config.c:143-181 | loading a printed collection gives the same sections and configs in order, with their strings, integers and floating-point values as they are printed |
| ConfigRoundTrip.PrintedPlain | hutils/src/config.c:143-181 | the printed text has only characters that the lexer is for |
| ConfigFile.WriteAndLoad | hutils/src/config.c:109-181 | writing a collection and loading the text with the lexer gives that collection |
| ConfigFile.Collection.GetSection | hutils/src/config.c:96-107 | the section of the name, made at the end exactly if there is none |
| ConfigFile.Collection.GetString | hutils/src/config.c:229-241 | the config of the name; exactly if there is none it is made behind the others with the default as its string, the integer that this text stands for and its floating-point value, and nothing else changes |
| ConfigFile.Collection.GetInteger | hutils/src/config.c:215-227 | the config of the name; exactly if there is none it is made behind the others with the default as its integer, its decimal digits and its floating-point value, and nothing else changes |
| ConfigFile.Collection.GetDouble | hutils/src/config.c:201-213 | the config of the name; exactly if there is none it is made behind the others with the default, its integer and its short text, and nothing else changes |
| ConfigFile.Collection.SetString | hutils/src/config.c:275-288 | exactly that config changes: a string with the integer that its digits stand for and its floating-point value, that of the integer for hexadecimal text; the name stays |
| ConfigFile.Collection.SetInteger | hutils/src/config.c:259-273 | exactly that config changes: the integer, its decimal digits, which fit the 16 bytes for them, and its floating-point value; the name stays |
| ConfigFile.Collection.SetDouble | hutils/src/config.c:243-257 | exactly that config changes: the value, the integer and the short text that the C library has for it; the name stays |
| ConfigFile.Collection.Write | hutils/src/config.c:143-181 | the two loops write the text of the whole collection, with floating-point values as the C library prints them |
| ConfigFile.Load | hutils/src/config.c:340-426 | the collection that the statements of the text make up to its end, with no name twice, or nothing exactly when one of them is refused |

## Left out

- The balance theorem of the splay tree (its amortised cost), the augmentation hook of the red-black tree (empty here), and the safe and reverse iteration macros, which use the same steps.
- Failing memory allocation, freeing of single blocks, alignment, and counters that run over 32 or 64 bits.
- The user's comparison, hash and free functions: parameters or integers in the model.
- The part of queue.h that only checks or poisons links in debug builds, and the other list families.
- SplayTree.Head.Splay: also models the splay towards both ends, whose loop is the same with a comparison that never changes.
- HashTable.Table.FindIndex: needs a table that has an array, as the code does; before the first insertion the code follows a null pointer.
- HashTable.Table.Rehash: needs a size that holds all entries, without which the loop of the insertion does not end.
- Vector.Vector.Resize: needs a size that the asserted bounds allow; reserving less than the front margin is not part of this model.
- Vector.Vector.Insert: says nothing of what the new slot holds, as in the code.
- Pool.Pool.Free: needs a node that is live; freeing one twice is not part of this model, and the two lists of the pool are sequences, so that their links are those proved in TailQueue.dfy.
- FlagFile.MergeFiles: fills the lists of the variables one after the other, when all files are read, and not file by file.
- FlagFile.ReadFile: needs a file that does not end in a lone hyphen, where the code reads past the end of the line.
- ConfigFile.Collection.SetDouble: needs a value whose short text has fewer than 24 characters, as the code asserts.
- FlagText.ReadLine: needs a line that has no single hyphen at its very end, where the code reads past the end.
- FlagMerge.CppflagsWritten: is stated for definitions that all give a value, as the form that this gives to `FlagSpec.SurvivesExactly`, which is for all inputs.
- Lexer.Lexer.TokenGet: needs the characters 1 to 127, a source that gives less than asked for only at its end, and a literal there that is closed within 256 characters; the memory source of config.c, which never advances, is not part of this model.
- ConfigFile.Load: needs a text whose literals all fit the window; sections and configs are values in a sequence, so that pointers to them that a caller keeps are not captured.
- ConfigRoundTrip.RoundTrip: is stated for floating-point values that are printed as numerals shorter than the window, and for strings of the characters 1 to 127; infinity and NaN are not printed so, and what the C library computes of doubles is a parameter.
- ConfigSpec.LoadedUnique: says nothing of a text with a literal that does not fit the window, where the code reads past what it holds.
- Utf8.Text.Get: gives nothing where no code starts; the code leaves its results unset there.
- System calls, threads, time, directories, the geometry and the user interface of the repository.
