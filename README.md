# Mark V. Shaney in Dafny

A model of mark-v-shaney, a Markov-chain text generator. It reads paragraphs of text. For
every word it records which word followed each pair of preceding words. It then generates
new paragraphs by walking that chain at random.

- `mark.dfy` (module `Mark`) models mark.go:
  - `Prefix` is the window of the last `PrefixLength` (2) words. `Initial` is all `""`.
  - `WordBag` maps each following word to its count.
  - The chain `MarkVShaney` is the class `Chain`. Its map from prefix to bag is updated in place.
  - `Add`, `Walk`, `GetDocument`, `GetOne`, `Len` and `Shift` are modelled as in the code.
- `ingest.dfy` (module `Ingest`) models the two parts of main.go that feed the chain:
  - `scanParagraph`, the split function that cuts the input at `"\n\n"`.
  - `parseParagraph`, which adds each word of a paragraph under its prefix.

Randomness is a parameter. `rand.Intn(n)` is a supplied draw reduced modulo `n`. `GetDocument`
takes one draw per walk.

Go's map iteration order is unspecified. It is modelled by Dafny's choice (`:|`) in the loops
of `Len` and `GetOne`, so their contracts hold for every order. `GetOne` also returns the
order it used, as a ghost out-parameter, so its contract can say exactly which word the scan
stops at.

One place where the code differs from the program's documented intent is the word choice. The
model follows the code. The comment at mark.go:83 promises a random word weighted by its
frequency. `GetOne` actually stops at the first word whose running sum satisfies `entry <= sum`
(mark.go:89), with `entry` in `[0, Len)`. As a result, when the bag holds another word:

- The first word in iteration order wins `count + 1` entries instead of `count`.
- A last word of count 1 is never chosen.
- `FirstWordRange` and `LastSingletonNeverDrawn` state both effects.

In a one-word bag that word takes every entry.

The prefix is reset to `Initial` at the start of every paragraph (mark.go:9-13, 17-18). So a
paragraph contributes exactly one transition from `Initial`: to its first word.
`FirstParagraphInitialBag` states this for one paragraph ingested into an empty chain: the bag
of `Initial` is `{first word: 1}`.

## Model

| member | source | states |
|---|---|---|
| Mark.Len | mark.go:98-103 | returns the bag's total weight, the sum of all its counts, whatever order the map is iterated in |
| Mark.SumOfOrdering | mark.go:86-92 | in every iteration order, the running sum of GetOne's scan ends at Len, so the scan covers the whole weight |
| Mark.Intn | mark.go:85 | the drawn entry lies in [0, n); a draw already below n is taken unchanged |
| Mark.GetOne | mark.go:84-95 | for a non-empty bag, returns a word of the bag: the first word, in some iteration order, whose running sum reaches entry (`entry <= sum`); the panic after the loop is unreachable |
| Mark.StopsAtExactlyOne | mark.go:86-92 | for every iteration order and every entry in [0, Len), exactly one index is where the scan stops, so the loop always returns |
| Mark.FirstWordRange | mark.go:89 | the first word of the iteration order is chosen for every entry in [0, count]: when the bag holds another word, one entry more than its count |
| Mark.LastSingletonNeverDrawn | mark.go:89 | a word that is last in the iteration order and has count 1 is never chosen, for any entry, when the bag has at least two words |
| Mark.Shift | mark.go:106-111 | in place on the prefix array: each element moves down one place and the word enters last; the result is Shifted of the old prefix |
| Mark.ShiftAllWindow | mark.go:106-111 | after shifting in a sequence of words, the prefix is the last PrefixLength entries of the old prefix followed by those words |
| Mark.ShiftFromInitial | mark.go:106-111 | from Initial, once at least PrefixLength words were shifted in, the prefix is the last PrefixLength of them |
| Mark.ShiftFromInitialShort | mark.go:106-111 | from Initial, with fewer than PrefixLength words shifted in, the prefix is "" padding followed by those words |
| Mark.ShiftAllLast | mark.go:110 | after at least one shift, the prefix ends with the latest word |
| Mark.Added | mark.go:46-53 | after Add(p, w): p has a bag (a new bag is {w: 1}); the count of (p, w) rises by one and every other count of every prefix is unchanged; the chain's invariant is kept when w is not Terminal |
| Mark.AddedWeight | mark.go:46-53 | Add raises the weight (Len) of p's bag by exactly one and leaves every other bag's weight unchanged |
| Mark.AddedTotal | mark.go:46-53 | Add raises the chain's total weight by exactly one |
| Mark.AddAllCount | mark.go:46-53 | after a sequence of Add calls, each count equals its old value plus the number of calls with that prefix and word |
| Mark.AddAllWeight | mark.go:46-53 | after a sequence of Add calls, each bag's weight rises by the number of calls with its prefix |
| Mark.AddAllTotal | mark.go:46-53 | after a sequence of Add calls, the total weight rises by the number of calls |
| Mark.AddAllKeys | mark.go:47-51 | a prefix has a bag after a sequence of Add calls if and only if it had one before or some call used it |
| Mark.AddAllWellFormed | mark.go:46-53 | Add calls whose words are not Terminal keep every bag non-empty, free of Terminal and with counts of at least 1 |
| Mark.AddAllSingleWord | mark.go:46-53 | starting from an empty chain, a prefix used by exactly one call ends with the bag {w: 1} of that call's word |
| Mark.Chain.constructor | mark.go:38 | a new chain is empty and satisfies the invariant |
| Mark.Chain.Add | mark.go:46-53 | the table becomes Added(old table, prefix, word), with the bag created first when missing; the invariant is kept |
| Mark.Chain.Walk | mark.go:76-81 | answers Terminal if and only if the prefix has no bag; otherwise it answers the word GetOne picks from that bag for the draw, under the iteration order it returns (ghost) |
| Mark.Chain.GetDocument | mark.go:55-73 | the document starts from Initial; each word i is the word GetOne picks for draws[i] from the bag of the prefix the words before it lead to (Drawn, with the ghost orders and stop indices); so each word is in that bag; no word is Terminal; when the walk ends, it is at a prefix with no bag; an empty chain yields an empty document |
| Mark.DrawnStep | mark.go:64-70 | appending GetOne's pick for the next draw from the current prefix's bag keeps every word tied to its draw |
| Mark.DrawnGenerated | mark.go:64-70 | a document whose words are GetOne's picks is one the chain can produce: each word is in its prefix's bag |
| Mark.GeneratedStep | mark.go:65-70 | appending a word taken from the current prefix's bag keeps the document one the chain can produce |
| Mark.GeneratedWords | mark.go:61-73 | a document the chain can produce holds no Terminal, and an empty chain produces only the empty document |
| Ingest.IndexBlankLine | main.go:64 | returns the index where the first "\n\n" starts, or -1 exactly when data holds none |
| Ingest.ScanParagraph | main.go:59-74 | never consumes more than data; a token is a prefix of data holding no "\n\n"; input is consumed exactly when a token is returned |
| Ingest.ScanParagraphCases | main.go:59-74 | the four answers: nothing at EOF on empty data; the bytes before the first "\n\n", consuming the separator too; all of the data at EOF when there is no "\n\n"; otherwise no token and nothing consumed |
| Ingest.Paragraphs | main.go:36-39 | the scanner loop at EOF: it yields no paragraph exactly when the input is empty, and never more paragraphs than input bytes, since each token consumes at least one byte |
| Ingest.ParagraphsRoundTrip | main.go:59-74 | splitting all the input at EOF loses nothing but a final separator: joining the paragraphs with "\n\n" gives back the data, or the data without a trailing "\n\n" |
| Ingest.ParagraphsHaveNoBlankLine | main.go:64-66 | no paragraph cut out of the input holds a "\n\n" |
| Ingest.Feed | main.go:47-54 | one Add call per word, in order: the i-th word is added under Initial shifted by the i words before it |
| Ingest.FeedWindow | main.go:47-54 | the i-th word is added under the PrefixLength words before it, padded with "" at the start of the paragraph |
| Ingest.ParseParagraph | main.go:46-55 | the chain becomes the old chain plus one Add per word under the running prefix; the total weight rises by the number of words; only the first word gains a count under Initial; the invariant is kept |
| Ingest.FeedFromInitial | main.go:47-53 | of a paragraph's Add calls, exactly one uses Initial: the one for the first word |
| Ingest.ParagraphFirstWord | main.go:46-55 | ingesting a paragraph raises the count of w under Initial by one if w is its first word, and otherwise leaves it unchanged |
| Ingest.ParagraphTotal | main.go:46-55 | ingesting a paragraph of n words raises the chain's total weight by n |
| Ingest.FirstParagraphInitialBag | main.go:46-55 | ingesting one paragraph into an empty chain gives Initial the bag {first word: 1} |

## Left out

- main and parseInput (main.go:11-42): opening files, printing five documents and exiting on error are I/O. The split they drive is modelled by `Paragraphs`, which assumes the whole input is buffered and at EOF. The scanner's partial reads and its 64 KiB token limit are not modelled.
- bufio.ScanWords and scanner.Text() (main.go:48-51): the word scanner is replaced by the sequence of words it yields. Those words are non-empty, which `ParseParagraph` requires.
- math/rand (mark.go:85): the random source is replaced by supplied draws.
- Mark.GetOne: the probabilities of each word are not stated; the contract names the word chosen for each entry and each iteration order.
- Mark.Chain.GetDocument: the Go loop need not end when the corpus has a cycle. The model bounds it by the number of draws supplied and reports with `terminated` whether Terminal was reached.
- Go map iteration order: modelled as an arbitrary choice, not as Go's randomised order.
- Inner-map aliasing: in Go, Add increments the bag held in the chain through a map reference. The model writes the updated bag back into the chain's map. The resulting state is the same.
- Integer width: counts and sums are unbounded integers. The 64-bit overflow of Go's int is not modelled.
- scanParagraph's error result is nil on every path, so `Split` does not carry it.
