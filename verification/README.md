# Verification of the Ivy C data structures

A Dafny model of the self-contained parts of the Ivy C library, with proofs of
what they are for:

- the intrusive hash table (`src/uthash.h`): an element lies at once on a doubly
  linked application-order list with a cached tail and on a doubly linked
  bucket chain; additions can double the bucket array, deletions patch both
  structures, a merge sort rewrites the application order in place, and an
  optional Bloom filter short-circuits lookups;
- the growing ring buffer for congested sockets (`src/ivyfifo.c`);
- the parser of discovery messages (`src/ivydiscovery.h`);
- the option scanner of the tools (`tools/getopt.c`);
- the growing formatter (`src/ivybuffer.c`), and the argument lines that one
  application formats with it and another cuts up again (`src/ivy.c`).

Code that changes things in place is modelled by classes and methods that do
the same steps on references and arrays. Each is tied by its postcondition to a
specification function or a sequence, and the theorems are about those.

| files | content |
|---|---|
| `Sequences` | optional values, searching a string, sequence equalities |
| `Bits`, `UthashTypes` | shifts, masks, powers of two; the element with its handle, the bucket |
| `LoadFactor` | the expansion arithmetic on the bucket array alone, and the load bound |
| `UthashLinks`, `UthashExpand` | link surgery on chains and on the application order; the doubling of the bucket array |
| `StableSort`, `UthashSort` | what the merge sort computes; the sort on the links |
| `Bloom`, `Uthash`, `UthashMap` | the filter; the table and its invariant; its refinement of a finite map |
| `Jenkins` | the default hash function and its mixing step |
| `FifoSpec`, `IvyFifo` | the queue as a value; the ring buffer that implements it |
| `DiscoveryGrammar`, `DiscoveryLanguage`, `IvyDiscovery` | the language of discovery lines, once as the parser sees it and once written out with its characters and limits; the parser that reads it |
| `GetoptSpec`, `Getopt` | option scanning as a function; the scanner with its globals |
| `IvyBuffers`, `IvyArguments` | the formatter under three `vsnprintf` conventions; argument lines, sender and receiver |

`dafny verify dfyconfig.toml` checks everything.

## Main results

1. **One invariant for every history** (`Uthash.HashTable.Valid`). It implies all
   that `HASH_FSCK` looks at, that the cached tail is the last element, that the
   bucket count is a power of two, and that each element is in exactly the
   chain its hash selects. `AddKeyptr`, `Delete`, `Sort`, `ExpandBuckets` and
   deletion during iteration keep it; `UthashMap.Replay` runs any sequence of
   operations and shows the table answers like a finite map.
   `HashTable.Fsck` is proved to be a decision procedure: on any structure whose
   forward links end, it passes exactly when the backward links and all counts
   are consistent.
2. **A load bound that follows from the expansion arithmetic alone**, for every
   hash function: while expansion is not inhibited no chain is longer than
   `10 * (expand_mult + 1)`, the multipliers sum to at most the number of
   buckets, there are at most 19 items a bucket, and every expansion finds an
   ideal chain length from 1 to 10 (`LoadGuarantee`, `ExpandBuckets`). Expansion
   is inhibited exactly after two ineffective expansions in a row (`InhibitedExactly`). The
   invariant behind it charges a bucket one unit for each multiplier step and
   one for a chain standing exactly at its threshold.
3. **The in-place merge sort is the stable sort** of the application order, the
   only one there is, in `max(1, ceil(log2 n))` passes of at most `n` comparisons,
   with bucket chains untouched.
4. **Conservation for the queue**: over every run of writes, reads and flushes
   against any script of `send()` results, the accepted bytes are those handed
   on, in order, followed by the contents; with the exact acceptance rule. Proved
   on queues as values and run on the ring buffer itself (`Replay`). When a queue
   is closed, how far it grows and when a flush stops are given exactly.
5. **The exact language of discovery lines**, given independently of the parser
   with its characters, limits and values, and round trips in both directions.
6. **Argument lines survive the bus** exactly when no argument holds the
   separator; the receiver's in-place cutting is proved against it.
7. **Scanning options**: termination, and rewriting a command line to one
   option a string is invisible exactly when no dash is read as an option. The
   condition is needed: a dash among grouped flags becomes `--` when written alone.
8. **`HASH_JEN_MIX` is a bijection**, hence two keys of one length that differ
   inside one aligned block of 12 characters never reach the same state of
   `HASH_JEN`, before it is cut down to one word; nor do different keys with the
   same whole blocks, whatever their lengths.

## Assumptions and conventions

- Allocation succeeds. Counts and sizes of the hash table are unbounded
  naturals, so wrap-around near 2^32 is not modelled; `IvyFifoWrite` requires that
  the size, the length and one allocation block together stay below 2^32. Hash
  arithmetic is on 32-bit words, with `char` signed.
- An element and its embedded handle are one object, so the offset arithmetic
  with `hho` disappears. A key is the bytes that its pointer and length delimit.
- A comparison function, and the condition of a deleting loop body, are
  functions of the node: the macros write only handle fields.
- An element is added only while it is not in the table, since it has one set of links.
- `send()` is an arbitrary finite script of results: bytes taken (at most those
  offered, possibly none), interrupted, blocked, fatal. Past its end the socket
  blocks.
- `vsnprintf` is modelled under three conventions: the needed length (C99), -1
  when the text does not fit (glibc 2.0), and the one of Windows, which drops the
  terminator to make a text fit. `strchr`, `strcspn` and `strcmp` are functions on strings.
- `IvyArguments` follows `RegexpCall`, `nextArg` and `Receive` in src/ivy.c (lines
  407-422, 264-279 and 702-718), a file in Latin-1; the table cites it for the
  code, and the tests and the documentation for what they promise. `UthashMap` uses the table the way the same file
  does, looking a key up before adding it.
- Where code and documentation disagree, the code is followed: `doc/NEWS:9`
  suggests that a full queue stays closed until it is drained, but a growing
  `IvyFifoRealloc` replaces the structure and so opens it (`src/ivyfifo.c:94-104`).

## Model

| member | source | states |
|---|---|---|
| LoadFactor.IdealIsCeil | src/uthash.h:687-718 | the shift-and-mask formula is the ceiling of items over buckets, for every count and power of two |
| LoadFactor.LoadBound | src/uthash.h:676-686 | a balanced bucket array holds at most 19 items a bucket |
| LoadFactor.AddKeepsBalance | src/uthash.h:650-661 | an addition that stays below its threshold keeps the charges within the bucket count |
| LoadFactor.DeleteKeepsBalance | src/uthash.h:664-674 | a deletion keeps the balance, although it leaves the multiplier in place |
| LoadFactor.IdealBounds | src/uthash.h:716-718 | with at most 20 items a bucket before it, an expansion finds an ideal length from 1 to 10 |
| LoadFactor.ChargePerIdeal | src/uthash.h:727-731 | a multiplier chosen against the ideal length puts the chain within its threshold and pays for its charge |
| LoadFactor.ExpandRestoresBalance | src/uthash.h:716-731 | however the items fall, the multipliers an expansion sets leave the doubled array balanced |
| LoadFactor.QuotientIsDiv | src/uthash.h:729-730 | the quotient of the multiplier is integer division |
| UthashLinks.BktDoubles | src/uthash.h:175-178 | one more mask bit sends slot b to b or to b plus the old bucket count |
| UthashLinks.BktIsRemainder | src/uthash.h:175-178 | the mask takes the remainder of the hash value by the bucket count |
| UthashLinks.PushPlaced | src/uthash.h:650-656 | a push on the selected chain keeps every node in exactly its chain, with the counts right |
| UthashLinks.PullPlaced | src/uthash.h:664-674 | so does taking a node off |
| UthashLinks.PushFront | src/uthash.h:650-656 | the five link and count writes put a node in front of one chain and leave every other chain linked |
| UthashLinks.DelInBkt | src/uthash.h:664-674 | the link writes remove one node from its chain, head case included, and leave every other chain linked |
| UthashLinks.LinkLast | src/uthash.h:160-164 | appending at the cached tail extends the list by the node |
| UthashLinks.UnlinkApp | src/uthash.h:209-219 | the patch-up of prev and next leaves the list without the node |
| UthashLinks.FindInBkt | src/uthash.h:636-647 | walking a chain finds the first node with the key, or NULL |
| UthashLinks.FirstMatchExact | src/uthash.h:636-647 | that node has the key, and NULL means that no node has |
| UthashExpand.MoveNode | src/uthash.h:725-736 | moving one node pushes it on its new chain, counts it, and keeps multipliers and nonideal count right |
| UthashExpand.SlotsDouble | src/uthash.h:725-725 | the nodes of old chain i go to new chains i and i plus the old count only |
| UthashExpand.MoveChain | src/uthash.h:722-738 | the inner loop deals out one old chain, while it overwrites the links it walks |
| UthashExpand.MoveAll | src/uthash.h:719-739 | every new chain is the reverse of the nodes of its one old chain whose hash selects it; none is lost or doubled; the nonideal count is the sum of the excesses |
| Bloom.TestAfterSet | src/uthash.h:112-119 | after setting the bit of one hash value, another passes exactly if it shares the bit or passed before |
| Bloom.Geometry | src/uthash.h:96-119 | a filter of 2^nbits bits has as few bytes as hold them, and a hash value selects the bit numbered by its remainder |
| Bloom.Add | src/uthash.h:112-116 | the in-place update has that effect for every hash value |
| Uthash.HashTable.MakeTable | src/uthash.h:128-145 | the new table is valid, has 32 empty buckets without multipliers, and has nothing recorded or marked |
| Uthash.HashTable.BloomMake | src/uthash.h:98-105 | the new filter lets nothing through |
| Uthash.HashTable.ExpandBuckets | src/uthash.h:705-751 | the doubled table holds each old chain split in two; the recorded ideal length, nonideal items, multipliers, ineffective count, noexpand and history are what they should be; balance is restored |
| Uthash.HashTable.ExpansionRecords | src/uthash.h:716-745 | what an expansion records, in terms of the chains it leaves: items over buckets rounded up, each long chain over that as multiplier, the nodes beyond it as nonideal, ineffective when they are more than half |
| Uthash.HashTable.AddToBkt | src/uthash.h:650-661 | pushes, and expands exactly when the threshold is reached and expansion not inhibited; otherwise one bucket record changes and no other field of the table |
| Uthash.HashTable.AddKeyptr | src/uthash.h:150-173 | appends to the application order, keeps the invariant, marks the hash value, and says which chain grew and when the table did, starting from the new table for the first element; nothing else of the table changes when it does not grow |
| Uthash.HashTable.Delete | src/uthash.h:192-225 | removes exactly that element from the order and from its chain, in place and with its bucket record, keeping the invariant, the other records, the multipliers, the filter and everything that steers expansion; deleting the last element empties the table |
| Uthash.HashTable.Find | src/uthash.h:82-93 | NULL exactly when no live element has the key, otherwise a live element that has; the same node whether or not there is a filter |
| Uthash.HashTable.FoundExactly | src/uthash.h:82-93 | searching the one selected chain is as good as searching all elements, and a present key passes the filter |
| Uthash.HashTable.KeyLocates | src/uthash.h:115-119 | an element is in the chain its key selects and no live hash value fails the filter |
| Uthash.HashTable.FilterExactly | src/uthash.h:112-119 | over every history the filter lets through exactly the hash values whose low bits agree with one added since the table was made |
| Uthash.HashTable.Sort | src/uthash.h:758-835 | the application order becomes the stable sort of the old one, after the stated number of passes and at most n comparisons a pass; buckets and chains are not written |
| Uthash.HashTable.IterDelete | src/uthash.h:895-897 | a loop that deletes the current element by any condition visits every element once, in order, and leaves the others in order |
| Uthash.HashTable.KeptMembers | src/uthash.h:895-897 | what remains is exactly what the condition spares |
| Uthash.HashTable.KeptNothing | src/uthash.h:895-897 | deleting everything leaves the empty table, with head NULL |
| Uthash.HashTable.LoadGuarantee | src/uthash.h:676-686 | in any valid table with expansion enabled: chain length within the threshold, multipliers within the bucket count, at most 19 items a bucket |
| Uthash.HashTable.InhibitedExactly | src/uthash.h:944-950 | over the whole history of a table: expansion is inhibited exactly after two ineffective expansions in a row, the first such pair is the last of the history, and each expansion has doubled the bucket count |
| Uthash.HashTable.ExactlyOneChain | src/uthash.h:175-178 | a chain holds an element exactly if the element is live and its hash selects the chain |
| Uthash.HashTable.FsckChain | src/uthash.h:258-268 | the walk of one chain succeeds exactly if the backward links undo the forward ones, and then counts it |
| Uthash.HashTable.FsckApp | src/uthash.h:280-293 | the same for the application order |
| Uthash.HashTable.Fsck | src/uthash.h:249-299 | the check passes exactly if links, chain counts and item count are consistent |
| Uthash.HashTable.ValidPasses | src/uthash.h:249-299 | every valid table can be walked and passes |
| UthashMap.FindOrAdd | src/uthash.h:82-173 | look up, add if absent: the finite map's put |
| UthashMap.Replay | src/uthash.h:82-225 | over every sequence of puts, gets, removals and sorts the answers and the final state are those of a finite map |
| StableSort.PassCount | src/uthash.h:767-832 | the number of passes is max(1, ceil(log2 n)) |
| StableSort.PassDoublesRuns | src/uthash.h:772-824 | a pass over sorted runs of one length leaves sorted runs of twice that length |
| StableSort.MergeStable | src/uthash.h:784-822 | one merge keeps tied elements in order, left run first |
| StableSort.SortPermutes | src/uthash.h:758-835 | the sort permutes, whatever the comparison does |
| StableSort.SortIsStableSort | src/uthash.h:758-835 | for a total preorder the result is sorted, a permutation and stable |
| StableSort.StableSortUnique | src/uthash.h:758-835 | there is no other sequence with these properties |
| UthashSort.StepOver | src/uthash.h:774-782 | counts off the first run and finds the second |
| UthashSort.MergeRuns | src/uthash.h:783-822 | the inner loop links the merge of the two runs behind the output list, with stale links beyond |
| UthashSort.MergePass | src/uthash.h:768-825 | a pass on the links is the pass on sequences, fully linked at the end, with at most n comparisons, and did at most one merge exactly if it was the last |
| Jenkins.HashJenMix | src/uthash.h:374-385 | the nine steps in place compute the mixing function |
| Jenkins.MixBijective | src/uthash.h:374-385 | the mixing function has a two-sided inverse on triples of 32-bit words |
| Jenkins.Word4Injective | src/uthash.h:395-403 | four signed characters added up with carries still determine the word's characters |
| Jenkins.HashJen | src/uthash.h:387-426 | the loop and the fall-through switch compute the final state's third word, whose meaning JenSeparates, JenInjective and Vector give |
| Jenkins.TailInjective | src/uthash.h:411-423 | the switch adds different words for different remaining characters |
| Jenkins.BlockInjective | src/uthash.h:394-409 | so does one full block of twelve |
| Jenkins.JenKeeps | src/uthash.h:394-424 | from different states the same characters lead to different states: what comes later cannot undo a difference |
| Jenkins.JenInjective | src/uthash.h:387-426 | two keys of one length, however long, that differ inside one aligned block of 12 or only in the tail never reach the same final state |
| Jenkins.JenInjectiveShort | src/uthash.h:387-426 | in particular no two keys of one length up to 12 do |
| Jenkins.TailSeparates | src/uthash.h:410-423 | different tails of any lengths below 12 change any state differently, since the length has the lowest byte of the third word to itself |
| Jenkins.JenSeparates | src/uthash.h:387-426 | different keys with the same whole blocks never reach the same final state, whatever their lengths; zeros at the end count |
| Jenkins.Vector | src/uthash.h:374-426 | the state reached by one key of 23 characters, some negative, which fixes the constants, shifts, signs and order of the macro |
| FifoSpec.AlignedBounds | src/ivyfifo.c:89-90 | the aligned size exceeds the request by at most a block, and fits exactly when the request is below the maximum |
| FifoSpec.WriteRule | src/ivyfifo.c:86-125 | a write is accepted whole exactly when the total stays below 32 MB and, in a closed queue, reaches the capacity; the buffer grows only when it must, to the next multiple of 256 kB beyond the total; a rejected write changes only the flag |
| FifoSpec.ReopensUndrained | src/ivyfifo.c:86-115 | a closed queue from which nothing was taken accepts a write that makes it grow, contrary to doc/NEWS: two concrete queues |
| FifoSpec.FlushConserves | src/ivyfifo.c:148-174 | whatever send() does, sent bytes and remaining bytes make up the old contents; the result is the remaining count or the error code |
| FifoSpec.FlushOffers | src/ivyfifo.c:150-155 | before every single call of send() the queue holds something, and something is offered |
| FifoSpec.FlushCall | src/ivyfifo.c:150-172 | call by call: the bytes a send() takes leave the front and are sent in order, and the loop goes on exactly if the call was interrupted or took all it was offered |
| FifoSpec.FlushFlag | src/ivyfifo.c:170-184 | a flush reopens a closed queue exactly if it sent something |
| FifoSpec.FlushErrors | src/ivyfifo.c:157-169 | the error code 2^32 - 1 appears exactly after a fatal or an empty send, and is no count |
| FifoSpec.FlushEmpties | src/ivyfifo.c:148-174 | when sends take all they are offered, at most two calls empty the queue: one, or two across the wrap |
| FifoSpec.ReadRule | src/ivyfifo.c:128-145 | a read hands out what it asks for or all there is, and keeps the rest |
| FifoSpec.FlagRule | src/ivyfifo.c:86-185 | after any operation the queue is closed exactly if it was a rejected write, or it was closed and nothing was taken out |
| FifoSpec.StepKeeps | src/ivyfifo.c:86-185 | every operation keeps the capacity and pointer invariant and balances bytes in against bytes out |
| FifoSpec.Conservation | src/ivyfifo.c:86-185 | over every run nothing is lost, duplicated, reordered or torn |
| IvyFifo.RingAppend | src/ivyfifo.c:117-121 | bytes copied to the write position are appended to the wrapped contents |
| IvyFifo.RingDrain | src/ivyfifo.c:177-181 | moving the read position drops bytes from the front |
| IvyFifo.IvyFifoBuffer.constructor | src/ivyfifo.c:30-40 | an empty queue of one block |
| IvyFifo.IvyFifoBuffer.Length | src/ivyfifo.c:68-74 | the number of bytes held, always below the capacity |
| IvyFifo.IvyFifoBuffer.Avail | src/ivyfifo.c:76-79 | never 0, so equal pointers always mean empty |
| IvyFifo.IvyFifoBuffer.Read | src/ivyfifo.c:81-145 | hands out the front of the queue in order, across the wrap, and nothing beyond |
| IvyFifo.IvyFifoBuffer.Realloc | src/ivyfifo.c:86-106 | refuses, grows with the contents straightened out and the flag cleared, or leaves alone |
| IvyFifo.IvyFifoBuffer.Write | src/ivyfifo.c:108-125 | the copy loop appends the whole text or nothing, as the queue's write does |
| IvyFifo.IvyFifoBuffer.Drain | src/ivyfifo.c:177-185 | drops from the front; reopens unless nothing was dropped |
| IvyFifo.IvyFifoBuffer.SendSocket | src/ivyfifo.c:148-174 | the loop does to queue, socket and result what the flush does, and terminates on every script |
| IvyFifo.IvyFifoBuffer.IsFull | src/ivyfifo.c:187-190 | the flag of the queue |
| IvyFifo.IvyFifoBuffer.Perform | src/ivyfifo.c:81-190 | one write, read or flush on the buffer does what it does on the queue; the flag after a write tells exactly whether it was accepted |
| IvyFifo.IvyFifoBuffer.Replay | tests/fifo.c:124-203 | every run of operations on the buffer itself conserves the bytes, and leaves contents, output and verdicts of the run on queues |
| DiscoveryGrammar.AcceptsGrammatical | src/ivydiscovery.h:31-65 | every line put together by the grammar is accepted with its fields |
| DiscoveryGrammar.AcceptedIsGrammatical | src/ivydiscovery.h:31-65 | every accepted line can be taken apart by the grammar |
| DiscoveryGrammar.Language | src/ivydiscovery.h:31-65 | the accepted language and its values, as an equivalence |
| DiscoveryGrammar.ShowDecimal | src/ivydiscovery.h:10-28 | reading undoes printing of a number |
| DiscoveryGrammar.PrintParse | src/ivydiscovery.h:31-65 | printed fields parse back, whatever the line ending |
| DiscoveryGrammar.ParsePrint | src/ivydiscovery.h:31-65 | parsed fields are valid, so that printing and parsing them again changes nothing |
| DiscoveryLanguage.DigitWorth | src/ivydiscovery.h:16-18 | the digits are those of the row 0123456789, each worth its position in it |
| DiscoveryLanguage.DecimalIsValue | src/ivydiscovery.h:17-22 | the value accumulated digit by digit is the positional value |
| DiscoveryLanguage.AcceptsExactly | src/ivydiscovery.h:10-65 | a line is accepted with given fields exactly when it spells them: characters, separators, size limits, version up to 2147483647, port from 1 to 65535 and line end written out |
| DiscoveryLanguage.FieldsInRange | src/ivydiscovery.h:41-53 | the fields of an accepted line are in those ranges |
| DiscoveryLanguage.RangeIsSendable | src/ivydiscovery.h:31-65 | all fields in those ranges, printed with single blanks, come back |
| IvyDiscovery.Accumulate | src/ivydiscovery.h:17-22 | the guarded loop yields the exact value, or stops exactly when the full numeral is beyond the limit |
| IvyDiscovery.IvyDiscoveryNumber | src/ivydiscovery.h:10-28 | a number field and its blanks; value and cursor untouched on rejection |
| IvyDiscovery.IvyParseDiscovery | src/ivydiscovery.h:31-65 | writes all four results, terminators included, or none |
| GetoptSpec.CallProgress | tools/getopt.c:8-76 | each call other than EOF reads a character of the current string, never its terminator, returns it or an error, and is past it for good; EOF comes exactly at an end and changes nothing |
| GetoptSpec.OptionAt | tools/getopt.c:32-51 | a character is an option where it first stands in the option string, and takes an argument exactly if a colon follows there |
| GetoptSpec.AnswersEnd | tools/getopt.c:14-25 | EOF comes exactly between strings and before one that is missing, empty, no dash at its start, or a dash or two alone |
| GetoptSpec.AnswersUnknown | tools/getopt.c:32-45 | a character that is no option gives a question mark, leaves optarg alone and is passed |
| GetoptSpec.AnswersFlag | tools/getopt.c:49-75 | an option without colon gives itself, with optarg NULL, and is passed |
| GetoptSpec.AnswersOption | tools/getopt.c:49-67 | an option with a colon takes the rest of its string, or all of the next one, or gives a question mark when there is none |
| GetoptSpec.ScanBounded | tools/getopt.c:8-76 | the calls end, after at most as many results as characters, in a state where EOF repeats |
| GetoptSpec.GroupingExact | tools/getopt.c:14-75 | grouping argument-less flags is invisible exactly when no dash is among them, or a dash is all |
| GetoptSpec.AttachedArgument | tools/getopt.c:51-67 | a nonempty argument may be attached or follow, exactly when the option is not a dash |
| GetoptSpec.NormalExact | tools/getopt.c:8-76 | any command line scans like its normal form, one option a string and arguments apart, exactly when no dash is read as an option |
| Getopt.Scanner.Strchr | tools/getopt.c:32-33 | the first occurrence or NULL |
| Getopt.Scanner.Getopt | tools/getopt.c:8-76 | one call on the globals does to argv, position, optarg and result what the scanning function says |
| Getopt.Scanner.ScanAll | tools/ivythroughput.cpp:167-167 | the caller's loop ends with all results in order |
| IvyBuffers.Vsnprintf | src/ivybuffer.c:53-62 | the three conventions, and what each leaves in the buffer |
| IvyBuffers.C99Attempts | src/ivybuffer.c:68-69 | told the length: at most two attempts and exactly the room needed |
| IvyBuffers.GlibcAttempts | src/ivybuffer.c:70-71 | told only of failure: doubled as often as needed and no oftener |
| IvyBuffers.GrownBound | src/ivybuffer.c:62-71 | under every convention the size is kept if the text fits, and otherwise at most doubles the contents or is exact |
| IvyBuffers.IvyBuffer.MakeMessage | src/ivybuffer.c:34-78 | terminates under every convention with the text appended to the same contents, terminated, and the stated size and attempts |
| IvyArguments.FormatArguments | src/ivy.c:407-422 | the messages made in the loop leave the arguments, each closed by the separator, and a newline |
| IvyArguments.ArgumentsRoundTrip | tests/receive.c:47-69 | the receiver cuts the line into the arguments sent exactly when none holds a separator |
| IvyArguments.LineRoundTrip | src/ivy.c:264-279 | any received line is its arguments joined, up to a missing last separator |
| IvyArguments.SplitHasNone | src/ivy.c:264-279 | no argument handed on holds a separator |
| IvyArguments.ArgumentReader.NextArg | src/ivy.c:264-279 | one cut in place: the next argument as a C string, the rest after it, and nothing before it touched |
| IvyArguments.Arguments | README.md:104-107 | the callback gets all arguments, intact after all cuts, or the message is rejected, exactly when there are more than 120 |

## Left out

- HASH_SELECT: it does not maintain the destination's tail or filter, so the invariant does not carry over to it.
- HASH_CLEAR: it abandons the elements with stale links, so head == NULL is all there is to say. HASH_CNT: reads num_items, which the invariant equates with the number of elements.
- HASH_BER, HASH_SAX, HASH_FNV, HASH_OAT, HASH_SFH, HASH_MUR: not the default; the table is proved for every hash function.
- Freed memory, allocation failure, and the event hooks (noexpand_fyi, expand_fyi, HASH_EMIT_KEY).
- Jenkins.JenInjective: says nothing of keys that differ in more than one block of 12 characters; among those there are more keys than states.
- IvyFifoGenericRead with a callback: every caller passes NULL.
- A send() that claims more bytes than it was offered.
- Bytes 0xFF in getopt's arguments, whose `int` value is that of EOF when `char` is signed; POSIX conformance of getopt (on `--` it does not advance optind).
- The header of a message line, its id, and the lookup of the receiver's callback in src/ivy.c; an argument with a newline would end its line early on the way.
- The matching of expressions, sockets, the event loop, timers, tools and tests.
