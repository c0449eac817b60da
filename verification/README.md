# A verified model of the hystack runtime

hystack is an edge agent of a content delivery network that runs on an event
runtime of its own.  This project models the data structures and algorithms of
that runtime in Dafny and proves what they keep over all inputs and all runs.

| files | what is modelled |
|---|---|
| `Rb*.dfy` | the timer tree: a red-black tree with parent links and a shared sentinel, linked in memory |
| `TimerSpec.dfy`, `Timer.dfy` | the timer service: arming, disarming, expiry, the next deadline |
| `Json*.dfy` | JSON: string codec, printer with a growing buffer, parser, entry points, child lists |
| `NumberTheory.dfy`, `Fermat.dfy`, `Rsa.dfy` | extended Euclid, Fermat's theorem, RSA on machine integers |
| `Md5Block.dfy`, `Md5.dfy` | MD5: the unrolled rounds, and streaming |
| `Rc4.dfy` | RC4 with hex rendering |
| `PoolPlace.dfy`, `PoolCleanup.dfy`, `Pool.dfy` | the arena allocator and the cleanups in its memory |
| `Queue.dfy`, `QueueSort.dfy` | the intrusive circular queues and their sort |
| `Connection.dfy` | connections, their events, the posted queues, the epoll dispatch loop |
| `Select.dfy` | the registry of the select back end |
| `ProcessEntry.dfy`, `ProcessTable.dfy`, `ProcessMaster.dfy` | the table of worker processes, what becomes of an entry over time, the master's turns and the reload |
| `Circuit.dfy` | the ring buffer and the receive buffer |
| `Lists.dfy`, `Options.dfy`, `MachineWords.dfy` | sequences without repeats, missing values, machine words |

Check the project with `dafny verify dfyconfig.toml`.

## How the model is built

Objects that the program changes in place are classes with the same fields, and
the loops are loops.  What a method does is stated against a function on
sequences, trees or maps, and the laws are lemmas about that function.

The tree in memory (`RbTree`) is proved through zippers: a subtree together with
the context above it (`RbShape`).  A ghost picture of the node fields
(`RbMemory.Mem`) ties the zipper to the nodes, so the fix-up loops move a zipper
up the tree while the fields change under them.  Deadlines and the order of
equal keys then come from the in-order sequence alone (`RbOrder`, `TimerSpec`).

The parser and the printer of JSON are proved equal to functions on texts
(`JsonText`).  Texts are built as RFC 8259 does, with every choice of white space,
escapes and digits (`JsonGrammar`), and the functions read such a text as what it
stands for; a printed text is one of them, and so comes back; `JsonEntry.PrintThenParse`
puts the two programs together.

RSA rests on the Bezout identity of `gcdext` and, in `Fermat`, on Fermat's theorem
(`LittleTheorem`, by the product of the remainders of a, 2a, .., (p-1)a) and on
agreement modulo two primes (`TwoPrimes`).

A slot of the process table carries a ghost history: the entry as it was when the
slot was filled, and all that it was told since (`ProcessTable.Recorded`).  What
reaping does with an entry is then a fact about histories, so about every run
(`ProcessEntry.RenewedIs`).

The memory of a pool is words of eight bytes.  `AllocPool.words` is what the pool has
put into the words of its lists and nobody else has been given since; whoever is
given a region may write there what it likes.  So what destroy does is stated for
every memory that agrees with those words (`PoolCleanup.Agrees`).

The answers of the system (malloc, fork, kill, waitpid, epoll, rand) are
parameters of the methods, constrained only by what the system promises: fork
gives no pid of a child that has not been waited for, waitpid names such children,
malloc gives what is not in use.

## Where the code departs from its intent

The model follows the code.  For each departure there is the input that shows it
and, where the code meets the intent on some inputs, the condition for it.

- `event_timer::find` turns a negative difference into an unsigned one
  (src/kits/event/event_timer.cpp:86-100): the wait is right if and only if no
  timer is overdue (`TimerSpec.FoundIsWait`); `TimerSpec.FoundOverdue` is an input
  with a wait of 2^64 - 1.
- `event_timer::add_timer` keeps an old deadline when the low 32 bits of the
  difference are small (src/kits/event/event_timer.cpp:116-136); which deadlines
  end up close to the one asked for is `TimerSpec.AddedIsClose`, and
  `TimerSpec.AddedFarOff` keeps a deadline that is 2^32 ms off.
- `rbtree_delete` on a root with at most one child leaves the parent link of the
  new root at the deleted node (src/kits/event/event_rbtree.cpp:165-176); this is
  the last clause of `RbTree.RbTree.DeleteRoot`, and nothing reads that link.
- `primarity(2, 1)` answers that 1 is prime (src/kits/conv/conv_rsa.cpp:61-77).  A
  draw of 1 makes phi 0, e is then drawn modulo -2, and `gcd(e, 0)` asks for a
  remainder by 0 (`Rsa.ConvRsa.Gcd`, `Rsa.ConvRsa.KeyGeneration`).  Nothing keeps the
  two primes apart, either: the round trip holds for all messages if and only if
  they differ (`Rsa.RoundTrips`).
- `modular_exponention` multiplies in `int` (src/kits/conv/conv_rsa.cpp:88-91): for
  every base below n no product leaves an `int` when n <= 46341, and the base 46341
  already does (`Rsa.ConvRsa.ModularExponention`).
- `conv_rsa_encode` and `conv_rsa_decode` drop what they compute
  (src/kits/conv/conv_rsa.cpp:159-179); `Rsa.ConvRsa.EncodeDecode` returns it.
- `alloc_align_ptr` masks with a 32-bit word (src/kits/alloc/alloc_pool.cpp:20-21): it
  rounds up if and only if the address plus 7 is below 2^32
  (`PoolPlace.AlignPtrRounds`); `PoolPlace.HighAddress` is one that it sends to 16.
- `alloc_pool_small` compares an unsigned difference, so a block whose end is not
  a whole number of words hands out what lies behind it
  (`PoolPlace.AcceptedInside`, `PoolPlace.UnevenEnd`); `pool->max` is 0x8FFF whatever
  the size of a block, so a request that counts as small can be larger than a
  block.  What a new block hands out is inside it if and only if the request fits
  and the address can be rounded (`Pool.FreshInside`, `Pool.SmallMayNotFit`).
- `alloc_pool_reset` empties the blocks but keeps the list of cleanups, whose
  entries are in those blocks (src/kits/alloc/alloc_pool.cpp:112-132).  After a reset
  no entry has a region, and what is put over it decides what the loop of
  `alloc_pool_destory` does.  Whatever stands in the words that are not the pool's,
  the loop calls all cleanups in order if and only if every entry stands as it was
  registered (`PoolCleanup.RightIff`), and it ends if and only if the links that are
  the pool's lead to an end (`PoolCleanup.EndsIff`, with a content that loops when they
  do not); as long as every entry has its region both are so
  (`Pool.AllocPool.DestroyEnds`).  After a cleanup and a reset: a second cleanup links
  the entry to itself (`Pool.ResetTrap`); with `alloc_pool_ptr_null` the handler is not
  called (`Pool.LostCall`), with another content of the same place it is, or the loop
  does not end (`Pool.ThenAlloc`); and the loop can end though an entry is lost
  (`Pool.ShiftedRun`).
- `event_connection::get` tests the front of `conn_free_queue` for null
  (src/kits/event/event_connection.cpp:46-51), but `std::queue` has no front when it
  is empty; `Connection.Cycle.Get` asks for a free connection.
- The events of a connection that was never handed out are what malloc returned
  (src/kits/module/modules_event.cpp:377-407); the flags mean something only after
  the first `get`, and the invariant says so (`Connection.FlagsTell`).
- `unix_process_get_status` looks at the slot behind the last one for a pid that is
  not in the table (src/unix/unix_process.cpp:416-435).  When all 1024 slots are
  taken, that is outside the array (`ProcessTable.FullTable`).
- It marks the first entry with the pid, but a worker that could not be started
  again keeps its entry and its old pid.  The exit of a running worker is recorded
  if and only if no earlier entry has its pid (`ProcessTable.MarkedIs`);
  `ProcessTable.StaleEntry` loses one, and the run `ProcessMaster.ExitLost` leads there.
- `signal_worker_process` marks a worker that is gone as not exiting
  (src/core/core_cycle.cpp:215-225).  Over any run, an old worker that has exited
  other than with status 2 is started again if and only if SHUTDOWN or a signal
  before it had reached it and a later signal found it gone with none reaching it
  after that, or neither had and no later one did for good
  (`ProcessMaster.OldWorker`); in `ProcessMaster.ReopenRevives` a REOPEN does it.
  Inside the master's turns, which reap before they start workers and signal, this
  cannot happen to a worker reached while it ran (`ProcessMaster.Turn`).
- `parse_hex4` answers 0 for four bytes that are not all hex digits
  (src/kits/conv/conv_json.cpp:630-633), which is the code of U+0000, too: such a
  literal is not refused but ends the string (`JsonGrammar.BadDigits`).  The parser
  also takes leading zeros, control characters in strings, and any byte up to 32
  as white space; the texts of `JsonGrammar` include these.
- `circuit_queue::dequeue` tests the result of `peek` the wrong way round
  (src/kits/method/circuit_queue.hpp:216): it never does what it is for
  (`Circuit.DequeueNeverIntended`).
- `conv_rc4_to_rc4` reads the key as `char` (src/kits/conv/conv_rc4.cpp:82-98): a byte
  of 128 or more counts as negative.  The schedule is that of RC4 if and only if in
  each of the 256 turns the sum before the remainder is not negative
  (`Rc4.UsableIs`); bytes below 128 are enough, a first byte of 128 or more is fatal
  (`Rc4.UsableKeys`), a later one need not be (`Rc4.LargeByte`).  An empty key divides
  by zero.
- `conv_rc4_encode` and `conv_rc4_decode` copy the message into a string that they do
  not use (src/kits/conv/conv_rc4.cpp:131, 151), which reads up to the next NUL, so
  behind a message that holds none; the copy is not modelled.

## Model

| member | source | states |
|---|---|---|
| RbInsert.RecolourKeeps | src/kits/event/event_rbtree.cpp:74-80 | with a red uncle, recolouring moves the only red-red edge up two levels and keeps black heights |
| RbInsert.OuterKeepsLeft | src/kits/event/event_rbtree.cpp:87-89 | an outer grandchild, after the rotation at the grandparent, leaves a red-black tree but for the root's colour |
| RbInsert.OuterKeepsRight | src/kits/event/event_rbtree.cpp:109-111 | the same on the right |
| RbInsert.InsertDone | src/kits/event/event_rbtree.cpp:68-117 | when the loop ends, blackening the root gives a red-black tree |
| RbDelete.SiblingExists | src/kits/event/event_rbtree.cpp:237-248 | a hole that is one black short has a sibling that is a node with balanced children |
| RbDelete.RedSiblingKeepsLeft | src/kits/event/event_rbtree.cpp:242-248 | rotating a red sibling up keeps the shortage where it is and makes the sibling black |
| RbDelete.RedSiblingKeepsRight | src/kits/event/event_rbtree.cpp:276-282 | the same on the right |
| RbDelete.PassUpKeeps | src/kits/event/event_rbtree.cpp:250-254 | a sibling with two black children turns red and the shortage moves to the parent |
| RbDelete.InnerNephewKeepsLeft | src/kits/event/event_rbtree.cpp:256-262 | a red inner nephew is rotated above the sibling, the shortage stays |
| RbDelete.InnerNephewKeepsRight | src/kits/event/event_rbtree.cpp:290-296 | the same on the right |
| RbDelete.OuterNephewPaysLeft | src/kits/event/event_rbtree.cpp:264-269 | a red outer nephew pays the shortage: the whole tree is red-black |
| RbDelete.OuterNephewPaysRight | src/kits/event/event_rbtree.cpp:298-303 | the same on the right |
| RbDelete.DeleteDone | src/kits/event/event_rbtree.cpp:237-308 | at a red node or at the root, blackening ends the shortage |
| RbRotate.RotatedLeftOrder | src/kits/event/event_rbtree.cpp:312-339 | a left rotation keeps the in-order sequence and the nodes |
| RbRotate.LeftRotatedZip | src/kits/event/event_rbtree.cpp:312-339 | in memory, the writes of a left rotation leave all links consistent around the rotated subtree |
| RbRotate.RightRotatedZip | src/kits/event/event_rbtree.cpp:365-392 | the same for a right rotation |
| RbOrder.InsertedFacts | src/kits/event/event_rbtree.cpp:120-138 | an insertion keeps the order, and puts the new item behind every key that is not greater |
| RbOrder.HungOrder | src/kits/event/event_rbtree.cpp:120-138 | a node hung into the hole that the descent finds is that insertion |
| RbOrder.TakenOutOrder | src/kits/event/event_rbtree.cpp:179-185 | splicing a node with one child out of the tree removes its item from the sequence and no other |
| RbDelete.ReplacedOrder | src/kits/event/event_rbtree.cpp:190-224 | a node with two children gives its place to its successor: the sequence loses the node's item and no other |
| RbUnlink.PlaceTakenZip | src/kits/event/event_rbtree.cpp:199-223 | in memory, the writes by which the successor takes the place leave all links consistent |
| RbHeight.RedBlackIsShallow | src/kits/event/event_rbtree.cpp:46-138 | the height h of a red-black tree of n nodes has 2^h <= (n+1)^2, that is h <= 2 log2(n+1) |
| RbTree.RbTree.constructor | src/kits/event/event_rbtree.h:51-55 | an empty tree is valid |
| RbTree.RbTree.LeftRotate | src/kits/event/event_rbtree.cpp:312-339 | the zipper in memory becomes the rotated one; keys and order stay |
| RbTree.RbTree.RightRotate | src/kits/event/event_rbtree.cpp:365-392 | the same, mirrored |
| RbTree.RbTree.Min | src/kits/event/event_rbtree.cpp:9-15 | the leftmost node of the subtree |
| RbTree.RbTree.Next | src/kits/event/event_rbtree.cpp:18-43 | from the i-th node in order to the next one, and null behind the last |
| RbTree.RbTree.InsertTimerValue | src/kits/event/event_rbtree.cpp:120-138 | the descent ends at an empty hole that fits the key, and the node hangs there, red |
| RbTree.RbTree.Insert | src/kits/event/event_rbtree.cpp:46-117 | a valid tree stays valid, and its items are the old ones with the new one inserted behind equal keys |
| RbTree.RbTree.DeleteRoot | src/kits/event/event_rbtree.cpp:165-176 | a root with at most one child goes; the tree is valid, and the stale parent link of the new root is stated |
| RbTree.RbTree.Delete | src/kits/event/event_rbtree.cpp:141-309 | a valid tree stays valid through every fix-up case, and its items are the old ones without the node's |
| TimerSpec.ExpiredFiresTheDue | src/kits/event/event_timer.cpp:22-54 | with handlers that leave later due timers alone, expiry fires exactly the due timers, in deadline order and in order of insertion on ties |
| TimerSpec.ExpiredLeavesNoneDue | src/kits/event/event_timer.cpp:22-54 | after expiry no timer is due, whatever the handlers do short of arming due ones |
| TimerSpec.ExpiredForever | src/kits/event/event_timer.cpp:22-54 | a handler that arms its own timer with no delay: a turn of the loop changes nothing |
| TimerSpec.AddedIsClose | src/kits/event/event_timer.cpp:116-136 | the deadline left by add_timer is less than 300 ms from the one asked for, if and only if the old one was not kept or was close; no other timer moves |
| TimerSpec.AddedIsCloseInRange | src/kits/event/event_timer.cpp:116-136 | it is, whenever all deadlines are within 2^31 ms |
| TimerSpec.AddedFarOff | src/kits/event/event_timer.cpp:121-127 | a deadline 2^32 ms away from the old one is taken for close, and the old one kept |
| TimerSpec.FoundIsWait | src/kits/event/event_timer.cpp:84-101 | find equals the earliest gap if and only if no timer is overdue |
| TimerSpec.FoundOverdue | src/kits/event/event_timer.cpp:98-100 | a timer overdue by 1 ms gives 2^64 - 1 |
| Timer.EventTimer.AddTimer | src/kits/event/event_timer.cpp:116-136 | the tree holds what the list model says, and timer_set tells membership |
| Timer.EventTimer.DelTimer | src/kits/event/event_timer.cpp:106-113 | the event's item leaves the tree and its flag is cleared |
| Timer.EventTimer.Expire | src/kits/event/event_timer.cpp:22-54 | the loop over the tree computes the list model: who fires, in which order, and what is left; an event counts as timed out if and only if it did or it fired, and whether it is cancelable stays |
| Timer.EventTimer.Find | src/kits/event/event_timer.cpp:84-101 | the value of the list model |
| Timer.EventTimer.NoLeft | src/kits/event/event_timer.cpp:58-81 | 0 if and only if every pending timer is cancelable |
| Timer.EventTimer.ItemsOnce | src/kits/event/event_timer.cpp:106-136 | no timer is in the tree twice, so what is stated of lists applies to the tree |
| JsonUtf8.BitsAreArithmetic | src/kits/conv/conv_json.cpp:700-760 | the shifts and masks of the encoder are the quotients and remainders of the model |
| JsonUtf8.ParseHex4 | src/kits/conv/conv_json.cpp:611-644 | the value of four hex digits, 0 if one of them is none |
| JsonUtf8.HexReads | src/kits/conv/conv_json.cpp:611-644 | four digits, each in either case, are read as the number they write |
| JsonUtf8.EncodeInto | src/kits/conv/conv_json.cpp:739-760 | the bytes written from the back are the encoding, and nothing else is written |
| JsonUtf8.EncodeIsUtf8 | src/kits/conv/conv_json.cpp:707-760 | for every scalar value they are its UTF-8, as a decoder of section 3 of RFC 3629 reads it |
| JsonUtf8.JoinIsScalar | src/kits/conv/conv_json.cpp:676-705 | a pair of surrogates joins to a scalar value, from which the pair can be recovered |
| JsonString.PieceFits | src/kits/conv/conv_json.cpp:819-874 | one element of a literal writes no more than the room the first pass kept for it, however the passes are aligned |
| JsonString.UnescapedFits | src/kits/conv/conv_json.cpp:781-879 | for every text the second pass writes within the size of the first, NUL included |
| JsonString.EscapedLength | src/kits/conv/conv_json.cpp:922-948 | the length computed ahead is the length written |
| JsonString.SpelledParses | src/kits/conv/conv_json.cpp:769-895 | both passes over any string literal of RFC 8259, whatever the spelling of its elements, give the bytes it stands for |
| JsonString.EscapedParses | src/kits/conv/conv_json.cpp:769-895 | both passes over a printed string give the string back |
| JsonGrammar.LiteralMeans | src/kits/conv/conv_json.cpp:648-766 | every scalar value, in one \u literal or a surrogate pair with digits of either case, is read as its UTF-8; U+0000 ends the string |
| JsonGrammar.ShortMeans | src/kits/conv/conv_json.cpp:832-861 | what each of the eight short escapes stands for |
| JsonGrammar.BadDigits | src/kits/conv/conv_json.cpp:630-633 | a literal with bytes that are no hex digits ends the string |
| JsonGrammar.IntegerParses | src/kits/conv/conv_json.cpp:305-379 | up to 63 bytes of digits with or without a minus are read as that integer, or the nearest int |
| JsonGrammar.ListParses | src/kits/conv/conv_json.cpp:1437-1531 | any array of the grammar parses to its elements, or fails just when it is nested deeper than 1000 levels |
| JsonGrammar.DictParses | src/kits/conv/conv_json.cpp:1596-1705 | the same for objects |
| JsonGrammar.TermParses | src/kits/conv/conv_json.cpp:1308-1360 | any text of RFC 8259 without fractions and exponents, with any white space, escapes and digits, anywhere in a text: the tree it stands for and the offset behind it, or a failure just when it is nested too deep |
| JsonRoundTrip.ItemLayout | src/kits/conv/conv_json.cpp:1534-1593 | what stands between two printed elements, formatted or not |
| JsonRoundTrip.MemberLayout | src/kits/conv/conv_json.cpp:1732-1791 | the line of a printed member, formatted or not |
| JsonRoundTrip.IntParses | src/kits/conv/conv_json.cpp:305-379 | the digits of an int-range integer parse to it |
| JsonRoundTrip.QuotedParses | src/kits/conv/conv_json.cpp:769-895 | a printed NUL-free string parses to itself, with the offset behind the quote |
| JsonRoundTrip.ArrayParses | src/kits/conv/conv_json.cpp:1437-1531 | a printed array parses to its elements |
| JsonRoundTrip.ObjectParses | src/kits/conv/conv_json.cpp:1596-1705 | a printed object parses to its members |
| JsonRoundTrip.PrintedParses | src/kits/conv/conv_json.cpp:1308-1360 | any printable tree, formatted or not, anywhere in a text, parses to itself with the offset just past it |
| JsonRoundTrip.ParsePrinted | src/kits/conv/conv_json.cpp:1091-1117 | the same for a whole text and its NUL, up to 1000 levels |
| JsonPrinter.PrintBuffer.Ensure | src/kits/conv/conv_json.cpp:439-522 | room for the bytes asked for and one more, if and only if the limit allows it; what is written stays |
| JsonPrinter.PrintBuffer.UpdateOffset | src/kits/conv/conv_json.cpp:525-535 | the offset steps over exactly the text written last |
| JsonPrinter.PrintBuffer.WriteString | src/kits/conv/conv_json.cpp:898-1017 | the quoted text is in the buffer with a NUL behind it, if and only if it fits |
| JsonPrinter.PrintBuffer.WriteValue | src/kits/conv/conv_json.cpp:1363-1434 | the buffer holds the text of the tree, if and only if it fits the limit; the depth is restored |
| JsonPrinter.PrintBuffer.WriteArray | src/kits/conv/conv_json.cpp:1534-1593 | the same for an array |
| JsonPrinter.PrintBuffer.WriteObject | src/kits/conv/conv_json.cpp:1708-1819 | the same for an object, with its tabs and line breaks |
| JsonParser.ParseBuffer.SkipWhitespace | src/kits/conv/conv_json.cpp:1034-1057 | the first byte that is not white space, one step back at the end |
| JsonParser.ParseBuffer.ParseString | src/kits/conv/conv_json.cpp:769-895 | the string the function reads, or a failure exactly when it fails; every write is inside the block sized by the first pass |
| JsonParser.ParseBuffer.Utf16ToUtf8 | src/kits/conv/conv_json.cpp:648-766 | a \u literal or a surrogate pair is written in UTF-8, or nothing when it is bad |
| JsonParser.ParseBuffer.ParseNumber | src/kits/conv/conv_json.cpp:305-379 | the integer, saturated to an int |
| JsonParser.ParseBuffer.ParseValue | src/kits/conv/conv_json.cpp:1308-1360 | the parser is the function: it succeeds on the same texts with the same tree and offset, restores the depth, and never reads behind the NUL |
| JsonParser.ParseBuffer.ParseArray | src/kits/conv/conv_json.cpp:1437-1531 | the same for arrays, with the limit of 1000 levels |
| JsonParser.ParseBuffer.ParseObject | src/kits/conv/conv_json.cpp:1596-1705 | the same for objects |
| JsonEntry.Print | src/kits/conv/conv_json.cpp:1183-1245 | the text of the tree and a NUL in a block of that size, or null exactly when it is longer than an int allows |
| JsonEntry.Parse | src/kits/conv/conv_json.cpp:1060-1120 | the value behind an optional byte order mark, and, when asked for, nothing but white space behind it |
| JsonEntry.DocumentOfTerm | src/kits/conv/conv_json.cpp:1060-1130 | a text of the grammar with white space around it, a byte order mark or none and a NUL is a document of its tree, also when the end is demanded, if and only if it is nested no deeper than 1000 levels |
| JsonEntry.DocumentOfPrinted | src/kits/conv/conv_json.cpp:1091-1130 | the text of a tree is a document of that tree, also when the end is demanded |
| JsonEntry.PrintThenParse | src/kits/conv/conv_json.cpp:1075-1245 | printing and parsing back gives the same tree |
| JsonList.ChildrenUnique | src/kits/conv/conv_json.cpp:1950-1981 | the links determine the sequence of children |
| JsonList.GetArrayItem | src/kits/conv/conv_json.cpp:1845-1862 | the element at the index, null behind the end |
| JsonList.AddItemToArray | src/kits/conv/conv_json.cpp:1950-1981 | the item becomes the last child, and the list has its shape if and only if it was empty or the item pointed nowhere |
| JsonList.LinkItems | src/kits/conv/conv_json.cpp:1469-1519 | the links that parsing makes between new items, and from the head to the tail, are those of a child list |
| JsonList.DetachItemViaPointer | src/kits/conv/conv_json.cpp:2181-2215 | the list loses the item and keeps its shape, the item points nowhere |
| JsonList.DetachItemFromArray | src/kits/conv/conv_json.cpp:2217-2225 | the same by index; a bad index changes nothing |
| JsonList.InsertItemInArray | src/kits/conv/conv_json.cpp:2257-2284 | the item stands at the index, or last for an index behind the end |
| JsonList.ReplaceItemViaPointer | src/kits/conv/conv_json.cpp:2286-2333 | the replacement stands in the item's place, the item points nowhere |
| NumberTheory.GcdExtIsGcd | src/kits/conv/conv_rsa.cpp:100-113 | gcdext gives the greatest common divisor |
| NumberTheory.Bezout | src/kits/conv/conv_rsa.cpp:100-113 | its two factors combine the arguments to that divisor |
| NumberTheory.GcdExtSmall | src/kits/conv/conv_rsa.cpp:100-121 | the factors stay within the arguments, so adding b once makes x non-negative |
| Rsa.ConvRsa.Gcd | src/kits/conv/conv_rsa.cpp:41-57 | the loop gives the greatest common divisor, or divides by zero exactly when an argument is 0 |
| Rsa.ConvRsa.Primarity | src/kits/conv/conv_rsa.cpp:61-77 | from 2 on: 1 if and only if the number is prime or below 2 |
| Rsa.ConvRsa.ModularExponention | src/kits/conv/conv_rsa.cpp:81-96 | the power modulo n when all products fit an int; they do for bases below n <= 46341, and do not when the square of the base does not |
| Rsa.ConvRsa.ModularInverse | src/kits/conv/conv_rsa.cpp:117-122 | the inverse in 0..b-1, or -1 exactly when there is none |
| Rsa.ConvRsa.KeyGeneration | src/kits/conv/conv_rsa.cpp:126-155 | which draws are accepted, that a draw of 1 and no other leads to a division by zero inside gcd, which e a draw gives, and that every e prime to (p-1)(q-1) is drawn by e-2 and makes a key; d undoes e modulo (p-1)(q-1) |
| Rsa.ConvRsa.EncodeDecode | src/kits/conv/conv_rsa.cpp:159-179 | on machine integers the two powers modulo n, and every message below n <= 46341 comes back when the primes differ |
| Rsa.RoundTrip | src/kits/conv/conv_rsa.cpp:126-179 | with different primes and d the inverse of e, decoding gives back every message |
| Rsa.RoundTrips | src/kits/conv/conv_rsa.cpp:126-155 | all messages come back if and only if the two primes differ |
| Md5Block.RewrittenAgree | src/kits/conv/conv_md5.cpp:33-34 | the rewritten F and G are those of section 3.4 of RFC 1321 |
| Md5Block.StepIsRfc | src/kits/conv/conv_md5.cpp:38-41 | the macro is one operation of the four rounds |
| Md5Block.RotlIsShifts1 | src/kits/conv/conv_md5.cpp:40 | for the amounts of the first round, the or of the two shifts is their sum, and the shifts are a product and a quotient |
| Md5Block.RotlIsShifts2 | src/kits/conv/conv_md5.cpp:40 | the same for the second round |
| Md5Block.RotlIsShifts3 | src/kits/conv/conv_md5.cpp:40 | the same for the third round |
| Md5Block.RotlIsShifts4 | src/kits/conv/conv_md5.cpp:40 | the same for the fourth round |
| Md5Block.RotlPowers | src/kits/conv/conv_md5.cpp:40 | for these sixteen amounts the rotation of the model is that sum of product and quotient |
| Md5Block.OperationIsRfc | src/kits/conv/conv_md5.cpp:38-41 | a step of the run is an operation of section 3.4 of RFC 1321, with the exchange of roles |
| Md5Block.WordsInOrder | src/kits/conv/conv_md5.cpp:85-159 | the word that each of the 64 steps takes, as section 3.4 lists them |
| Md5Block.AmountsInOrder | src/kits/conv/conv_md5.cpp:85-159 | and the amount of its rotation |
| Md5Block.Turn | src/kits/conv/conv_md5.cpp:85-159 | a macro line is the next of the 64 operations, with the registers in turned roles |
| Md5Block.Round1A | src/kits/conv/conv_md5.cpp:87-94 | the first eight lines, with their constants, words and amounts |
| Md5Block.Round1B | src/kits/conv/conv_md5.cpp:95-102 | the next eight |
| Md5Block.Round2A | src/kits/conv/conv_md5.cpp:106-113 | the next eight |
| Md5Block.Round2B | src/kits/conv/conv_md5.cpp:114-121 | the next eight |
| Md5Block.Round3A | src/kits/conv/conv_md5.cpp:125-132 | the next eight |
| Md5Block.Round3B | src/kits/conv/conv_md5.cpp:133-140 | the next eight |
| Md5Block.Round4A | src/kits/conv/conv_md5.cpp:144-151 | the next eight |
| Md5Block.Round4B | src/kits/conv/conv_md5.cpp:152-159 | the last eight |
| Md5.WordsAreBytes | src/kits/conv/conv_md5.cpp:43-48 | the words of a block, written out low byte first, are its bytes |
| Md5.PaddingIsRfc | src/kits/conv/conv_md5.cpp:214-239 | the padding byte for byte: 0x80, zeros up to whole blocks, at most 72 bytes in all, the length in bits with its low byte first |
| Md5.DigestIsRfc | src/kits/conv/conv_md5.cpp:243-258 | the digest is the four registers in turn, low byte first |
| Md5.StartIsRfc | src/kits/conv/conv_md5.cpp:53-58 | the registers start as section 3.3 of RFC 1321 has them |
| Md5.FoldAppend | src/kits/conv/conv_md5.cpp:79-168 | whole blocks may be folded in one go or in several |
| Md5.ConvMd5.Body | src/kits/conv/conv_md5.cpp:64-176 | the registers become the fold of the blocks |
| Md5.ConvMd5.Update | src/kits/conv/conv_md5.cpp:178-207 | after any piece the context stands for the message so far: its whole blocks in the registers, the rest in the buffer, its length modulo 2^64 |
| Md5.PaddedIs | src/kits/conv/conv_md5.cpp:214-239 | both ways of padding give the padding of sections 3.1 and 3.2 of RFC 1321 |
| Md5.ConvMd5.Final | src/kits/conv/conv_md5.cpp:210-261 | the 16 bytes are the digest of the whole message, and the context is zeros |
| Md5.DigestOf | src/kits/conv/conv_md5.cpp:279-287 | however a message is cut into pieces, the digest is that of the whole |
| Rc4.SwapKeeps | src/kits/conv/conv_rc4.cpp:96-98 | a swap keeps the state a permutation of 0..255; the states of schedule and generation are built from it |
| Rc4.ScheduleIsRc4 | src/kits/conv/conv_rc4.cpp:88-99 | a turn of the schedule by index and exchange, from the identity on |
| Rc4.StreamIsRc4 | src/kits/conv/conv_rc4.cpp:103-115 | a turn of the stream by index and exchange, and the byte it gives |
| Rc4.XorIs | src/kits/conv/conv_rc4.cpp:116 | the exclusive or of the model is that of the machine |
| Rc4.MixedIs | src/kits/conv/conv_rc4.cpp:116 | each byte is mixed with its byte of the stream by it |
| Rc4.Generated | src/kits/conv/conv_rc4.cpp:101-117 | after any number of bytes the state is a permutation and the indices are inside it |
| Rc4.MixedTwice | src/kits/conv/conv_rc4.cpp:101-117 | mixing the key stream in twice changes nothing |
| Rc4.HexAt | src/kits/conv/conv_rc4.cpp:40-52 | two digits for a byte, the high one first, in upper case |
| Rc4.UnhexHex | src/kits/conv/conv_rc4.cpp:40-70 | reading the hex rendering gives the bytes back |
| Rc4.UsableIs | src/kits/conv/conv_rc4.cpp:76-99 | the program computes the schedule of RC4 if and only if no turn gives a negative index |
| Rc4.UsableKeys | src/kits/conv/conv_rc4.cpp:82-98 | keys whose first 256 bytes are below 128 are usable, keys whose first byte is not are not |
| Rc4.LargeByte | src/kits/conv/conv_rc4.cpp:82-98 | the key 1, 255 is usable through all 256 turns, the key 255, 1 is not |
| Rc4.ToRc4 | src/kits/conv/conv_rc4.cpp:73-119 | for every key: the loops mix the message in place, or run into a bad index or a division exactly for the keys that are not usable |
| Rc4.EncodeDecode | src/kits/conv/conv_rc4.cpp:123-161 | for every usable key decoding what was encoded gives the message |
| PoolPlace.MaskIsArithmetic | src/kits/alloc/alloc_pool.cpp:20-21 | the mask keeps the low 32 bits, rounded down to a word |
| PoolPlace.AlignPtrRounds | src/kits/alloc/alloc_pool.cpp:20-21 | the macro rounds up if and only if the address plus 7 fits 32 bits |
| PoolPlace.HighAddress | src/kits/alloc/alloc_pool.cpp:20-21 | an aligned address above 2^32 becomes 16 |
| PoolPlace.AcceptedInside | src/kits/alloc/alloc_pool.cpp:209-219 | what a block accepts lies inside it if and only if the macro rounds and stays before the end |
| PoolPlace.UnevenEnd | src/kits/alloc/alloc_pool.cpp:209-219 | a block with an end that is no whole number of words hands out what is not there |
| PoolPlace.Bumped | src/kits/alloc/alloc_pool.cpp:215-218 | a bump keeps all regions aligned, inside a block or a chunk, and apart from each other |
| PoolPlace.Chained | src/kits/alloc/alloc_pool.cpp:162-197 | so does a new block with a region at its start |
| PoolPlace.Chunked | src/kits/alloc/alloc_pool.cpp:230-265 | so does a chunk of its own |
| PoolCleanup.OverwrittenStands | src/kits/alloc/alloc_pool.cpp:29-49 | when bytes are given to somebody, an entry still stands if and only if it did and none of its bytes is among them |
| PoolCleanup.RegionTouches | src/kits/alloc/alloc_pool.cpp:29-36 | a new region leaves every entry that has its own region standing |
| PoolCleanup.PutKeeps | src/kits/alloc/alloc_pool.cpp:144-157 | the words of a new entry in front leave the others that have their regions standing |
| PoolCleanup.RightIff | src/kits/alloc/alloc_pool.cpp:87-91 | the loop finds all entries in order as they were registered, whatever the other words hold, if and only if every entry stands |
| PoolCleanup.EndsIff | src/kits/alloc/alloc_pool.cpp:87-91 | it ends, whatever the other words hold, if and only if the known links lead to an end; else there is a content with which it does not |
| Pool.AllocPool.constructor | src/kits/alloc/alloc_pool.cpp:52-74 | one empty block, nothing handed out |
| Pool.AllocPool.Small | src/kits/alloc/alloc_pool.cpp:201-226 | the region is in the first block from current on that has room; else in a new one, and then all is well if the request fits it and its address can be rounded |
| Pool.FirstFitMeans | src/kits/alloc/alloc_pool.cpp:201-227 | which block it is: the first from current on whose next free word leaves room up to the end of the block |
| Pool.AllocPool.NewBlock | src/kits/alloc/alloc_pool.cpp:162-197 | the chain is one block longer, the blocks on the way are counted once more, and current stands behind the last of them that was full often |
| Pool.AllocPool.LargeChunk | src/kits/alloc/alloc_pool.cpp:230-265 | the chunk is handed out and listed, or nothing has changed |
| Pool.AllocPool.AllocPtr | src/kits/alloc/alloc_pool.cpp:29-36 | the region has the address and size asked for and is a chunk exactly for large requests; earlier regions stay, words of the lists outside of the new regions stay, and none is in the region handed out |
| Pool.AllocPool.RegionsApart | src/kits/alloc/alloc_pool.cpp:29-36 | any two regions handed out since the last reset are apart, aligned, and inside the used part of their block |
| Pool.AllocPool.AddCleanup | src/kits/alloc/alloc_pool.cpp:135-158 | one more entry in front, in a region of its own, its data in another, or none; the other entries keep their regions, and words outside of the new regions stay |
| Pool.AllocPool.SetHandler | src/kits/alloc/alloc_pool.cpp:154-157 | the caller's write of a handler changes that entry and no other |
| Pool.AllocPool.Reset | src/kits/alloc/alloc_pool.cpp:112-132 | the chunks are freed, every block is empty, current is the first; the entries stay in the list without a region, so all have one only if there are none |
| Pool.AllocPool.DestroyEnds | src/kits/alloc/alloc_pool.cpp:87-91 | both conditions for the pool's own list, and that they hold while every entry has its region |
| Pool.AllocPool.Destroy | src/kits/alloc/alloc_pool.cpp:77-109 | in any memory in which the loop ends, it calls what it finds along the links, and all cleanups in order when every entry stands; every chunk handed out and every block is freed, none twice |
| Pool.ThenAgain | src/kits/alloc/alloc_pool.cpp:112-158 | after a reset, a new cleanup is written over the old one and linked to itself, so the loop ends in no memory |
| Pool.ResetTrap | src/kits/alloc/alloc_pool.cpp:52-158 | create, cleanup, reset, cleanup is a run whose destroy does not end |
| Pool.ThenAlloc | src/kits/alloc/alloc_pool.cpp:29-49 | after a reset, a region put over the entry leaves the loop to its content: it ends or not, and calls what stands there |
| Pool.LostCall | src/kits/alloc/alloc_pool.cpp:39-109 | create, cleanup, reset, alloc_pool_ptr_null, destroy does not call the handler |
| Pool.ShiftedRun | src/kits/alloc/alloc_pool.cpp:29-158 | create, cleanup, reset, one word, cleanup: the loop ends in every memory, though an entry does not stand |
| Pool.FreshInside | src/kits/alloc/alloc_pool.cpp:181-183 | what a new block hands out is inside it if and only if it fits behind the data header and the address can be rounded |
| Pool.SmallMayNotFit | src/kits/alloc/alloc_pool.cpp:31-33 | with blocks of 16 KB a small request can be larger than a block |
| Queue.InsertAfter | src/kits/event/event_posted.h:21-27 | the ring with the node behind the given place, all links consistent |
| Queue.InsertTail | src/kits/event/event_posted.h:29-33 | the queue with the node last |
| Queue.Remove | src/kits/event/event_posted.h:50-52 | the ring without the node, whose own links stay |
| Queue.Split | src/kits/event/event_posted.h:54-60 | two queues, cut before the given element |
| Queue.Add | src/kits/event/event_posted.h:62-66 | the concatenation, also when either queue is empty |
| QueueSort.QueueMiddle | src/kits/event/event.cpp:28-52 | the element number n/2 of n, rounded down |
| QueueSort.SortedMultiset | src/kits/event/event.cpp:56-82 | the sort is a permutation, for any comparison |
| QueueSort.SortedIsOrdered | src/kits/event/event.cpp:56-82 | with a total preorder the result is in order |
| QueueSort.SortedIsStable | src/kits/event/event.cpp:71-80 | elements that are not out of order keep their order, for any comparison |
| QueueSort.QueueSort | src/kits/event/event.cpp:56-82 | the loops over the ring compute that sort, with all links consistent |
| Connection.Cycle.constructor | src/kits/module/modules_event.cpp:372-407 | all connections free, in the order of the array |
| Connection.Cycle.Get | src/kits/event/event_connection.cpp:40-82 | the connection that has been free the longest; its events are in no tree and no queue, so the wipes cut no link, and the instance bit turns over |
| Connection.Cycle.Close | src/kits/event/event_connection.cpp:86-163 | the events leave the tree and the queues, the connection joins the free ones; a second close does nothing |
| Connection.Cycle.AddTimer | src/kits/event/event_timer.cpp:116-136 | the events in the tree are those whose flag says so |
| Connection.Cycle.AddConnection | src/kits/module/modules_event_epoll.cpp:201-215 | both events are active, if epoll agrees, and the tag handed over is the parity of the uses so far |
| Connection.Cycle.PostEvent | src/kits/event/event_posted.h:71-76 | an event is in the posted queues at most once |
| Connection.PostIs | src/kits/event/event_posted.h:71-76 | an event that is queued stays where it is, another joins the end of the queue named |
| Connection.Cycle.UnpostEvent | src/kits/event/event_posted.h:78-81 | the event leaves the queue that holds it |
| Connection.Cycle.PopPosted | src/kits/event/event.cpp:85-100 | the head of the queue leaves it, unmarked |
| Connection.Cycle.MovePostedNext | src/kits/event/event.cpp:104-121 | the deferred events go behind the posted ones, ready |
| Connection.Cycle.ProcessEvents | src/kits/module/modules_event_epoll.cpp:279-319 | an event that is in no queue is queued if and only if a report of its open connection, with the right instance, hands it on: the read event of a listening socket among the accepted, all others among the posted; in the order of the reports, read before write; what was queued keeps its place, and just these events become ready |
| Connection.Cycle.StaleTag | src/kits/module/modules_event_epoll.cpp:281-289 | a report is looked at if and only if the connection is open and an even number of uses lies between; so a close, or a close and one reuse, make it stale |
| Connection.Cycle.Partition | src/kits/event/event_connection.cpp:40-163 | free and acquired connections sum to their number |
| Connection.Cycle.Do | src/kits/event/event.cpp:212-267 | every step a worker can take keeps the whole invariant and forgets no use of a connection, so every run does |
| Connection.HeadDrops | src/kits/event/event.cpp:90-95 | with no event posted twice, unlinking the head is dropping the first element |
| Select.SelectModule.AddEvent | src/kits/module/modules_event_select.cpp:102-136 | one more event in the index, its descriptor in the set of its kind, the maximum kept |
| Select.SelectModule.DelEvent | src/kits/module/modules_event_select.cpp:139-172 | the event leaves the index, which stays dense; the sets stay right if and only if the kind is that of the event or it was not registered |
| Select.SelectModule.FindMax | src/kits/module/modules_event_select.cpp:264-274 | the largest registered descriptor, -1 only when there is none |
| Select.SelectModule.SetsAre | src/kits/module/modules_event_select.cpp:102-172 | each set holds just the descriptors of the registered events of its kind |
| Select.CompactedFds | src/kits/module/modules_event_select.cpp:152-168 | moving the last entry into the gap removes one descriptor from one set |
| ProcessEntry.ReplayIs | src/core/core_cycle.cpp:194-229 | over all that an entry was told, it counts as exiting if and only if the last signal that reached the process or found it gone had reached it; it is to be started again until status 2 |
| ProcessEntry.ReplayExited | src/core/core_cycle.cpp:215-225 | it counts as exited if and only if waitpid named it or a signal that was sent found it gone |
| ProcessEntry.RenewedIs | src/core/core_cycle.cpp:311-327 | reaping starts the process again if and only if it has exited, never with status 2, no signal has reached it for good, the master is not stopping, and fork works |
| ProcessEntry.ReapedIs | src/core/core_cycle.cpp:289-358 | what reaping makes of an entry, case by case |
| ProcessTable.SpawnDistinct | src/unix/unix_process.cpp:96-163 | a spawn keeps the pids of the running entries distinct if and only if none of them has the new one |
| ProcessTable.MarkedIs | src/unix/unix_process.cpp:416-435 | the exit of a running worker is recorded if and only if no earlier entry has its pid, and then it is all that changes, with the respawn mark gone for status 2 |
| ProcessTable.StaleEntry | src/unix/unix_process.cpp:416-424 | two entries of one pid, of which the first has exited: the exit of the second is lost |
| ProcessTable.FullTable | src/unix/unix_process.cpp:416-435 | in a full table, status 2 is looked up inside the array if and only if the pid is listed |
| ProcessTable.Table.Spawn | src/unix/unix_process.cpp:90-213 | the first free slot or the next one is filled, with a new history, or nothing changes: respawn for -3 and -4, just spawned for -2 and -4, detached for -5, neither exiting nor exited; at most 1024 slots, nothing running behind the last |
| ProcessTable.Table.GetStatus | src/unix/unix_process.cpp:378-439 | the answers of waitpid are marked in order, up to the first that is read outside the array |
| ProcessTable.Table.SignalWorkers | src/core/core_cycle.cpp:162-231 | every entry is changed as its state and the answers of channel and kill say |
| ProcessTable.Table.ReapChildren | src/core/core_cycle.cpp:271-361 | every exited entry is started again or given up, and the result is live if and only if some entry left has not exited and is exiting or not detached |
| ProcessTable.Table.StartedAgain | src/core/core_cycle.cpp:311-327 | in any state that a run leads to, which entries reaping starts again, by their histories |
| ProcessMaster.Do | src/nodes/nodes_cycle.cpp:226-338 | every step keeps the invariant; an entry stays with a longer history, or its slot had no running process, so every run does |
| ProcessMaster.Turn | src/nodes/nodes_cycle.cpp:251-337 | a worker that was reached while it ran is not started again by a turn, in which reaping comes before new workers and signals in any order, if kill is honest and no exit was lost; at most a worker just started takes its slot |
| ProcessMaster.StartWorkers | src/nodes/nodes_cycle.cpp:740-767 | up to three workers join in free slots, the others stay as they are; one is missing only if fork fails or the table is full |
| ProcessMaster.Reload | src/nodes/nodes_cycle.cpp:303-311 | every old worker is told to shut down and no new one is: those lose their mark and nothing else, and are to be started again |
| ProcessMaster.OldWorker | src/nodes/nodes_cycle.cpp:303-311 | any time later, an old worker is started again in exactly two cases: it had been reached and a later signal took that back for good, or it had not and no later one reached it for good |
| ProcessMaster.NewWorker | src/nodes/nodes_cycle.cpp:303-311 | any time later, a worker that the reload started and that has exited is started again unless status 2 or a later signal prevents it |
| ProcessMaster.ReopenRevives | src/core/core_cycle.cpp:162-231 | a run in which SHUTDOWN reaches a worker and a REOPEN after its exit makes reaping start it again |
| ProcessMaster.ExitLost | src/unix/unix_process.cpp:416-424 | a failing fork, a pid given again and an exit: a worker that has ended is listed as running |
| Circuit.CircuitQueue.Enqueue | src/kits/method/circuit_queue.hpp:178-209 | the elements are appended if and only if there is space, across the end of the ring |
| Circuit.CircuitQueue.Peek | src/kits/method/circuit_queue.hpp:230-260 | the first elements, if there are so many |
| Circuit.CircuitQueue.GetWritableLen | src/kits/method/circuit_queue.hpp:159-174 | a run behind the tail that holds no element, as long as it can be up to the end |
| Circuit.CircuitQueue.Dequeue | src/kits/method/circuit_queue.hpp:213-226 | what the code does: nothing when there are enough elements, a negative length when there are not |
| Circuit.DequeueNeverIntended | src/kits/method/circuit_queue.hpp:213-226 | no call of dequeue does what it is for |
| Circuit.AdvanceDrops | src/kits/method/circuit_queue.hpp:221-223 | the assignments behind the test would drop the first elements |
| Circuit.NodesBuffer.GetRecvParam | src/nodes/nodes_testing.cpp:72-76 | a free run to receive into |
| Circuit.NodesBuffer.Completion | src/nodes/nodes_testing.cpp:62-64 | the bytes received there are appended |
| Circuit.NodesBuffer.GetFirstPacketPtr | src/nodes/nodes_testing.cpp:79-89 | the first bytes in one piece at the head, the contents unchanged, if what wraps fits the extra places |

## Left out

- JsonParser.ParseBuffer.ParseNumber: does not model fractions and exponents; such a text fails in the model.
- JsonParser.ParseBuffer.ParseValue: does not state the offset left behind after a failure, which only feeds the error position.
- JsonParser.ParseBuffer.ParseValue: returns trees as values; the linked items are in JsonList.
- JsonGrammar.TermParses: for numbers of at most 63 bytes, since the program copies no more of one.
- JsonPrinter.PrintBuffer.Ensure: does not model a failing allocation, which ends in a failure of the whole print.
- JsonPrinter.PrintBuffer.PutEscaped: does not model the NUL that sprintf writes behind a \u escape and that the next byte overwrites.
- JsonPrinter.PrintBuffer.WriteValue: takes integer numbers only, and no raw items or missing keys.
- JsonList.ReplaceItemViaPointer: does not model the release of the old item.
- Timer.EventTimer.Expire: for deadlines within 2^31 ms of now and handlers that arm no timer that is due already; with one that does, the loop need not end (`TimerSpec.ExpiredForever`).
- Timer.EventTimer.Fire: handlers are lists of arming and disarming, given before; the step from a node to the event around it is a map.
- Rsa.ConvRsa.KeyGeneration: the draws of rand are parameters, for products of draws within an int.
- NumberTheory.GcdExt: for arguments that are not negative, as modular_inverse gives them.
- Md5.ConvMd5.Final: does not model conv_md5_encode, which reads constants of the context after they were set to zero.
- Rc4.ToRc4: stops at a negative index; what C++ makes of it is not modelled.
- Pool.AllocPool.AllocPtr: for blocks whose size is a whole number of words; once a block has been overrun or its address could not be rounded, only that call is stated.
- Pool.AllocPool.Destroy: takes the memory as it is when the loop starts; the handlers leave the list alone.
- PoolCleanup.Overwritten: a region that ends inside a word takes the whole word; headers of blocks are not among the pool's words.
- Pool.AllocPool.AddCleanup: for blocks below 2^32 and data that fits a block when it counts as small.
- Pool.AllocPool.constructor: for a first block below 2^32.
- Connection.Cycle.Get: for a free queue that is not empty, since std::queue defines no front otherwise.
- Connection.Cycle.AddTimer: keeps the tree as a set of events; its order is in the timer modules.
- Connection.Cycle.Close: does not model the socket and the pool of the connection.
- Circuit.CircuitQueue.Enqueue: sizes for which head plus length stays within an int; each call is atomic, since every one holds the mutex.
- ProcessTable.Table.GetStatus: does not go on after a read outside the array.
- ProcessMaster.Turn: takes what a turn does after reaping as a list of starts and signals; the timers, the new binary and the end of the master are left out.
- `select_del_connection`, which adds, and `select_repair_fd_sets`, which overwrites the maximum with a count: nothing can be kept across them.
- Failure of allocation inside JSON, pool headers lost on failure, and allocator hooks.
- Sockets, TLS, HTTP, DNS, files, logging, configuration, base64, character sets, scripts and user interface.
