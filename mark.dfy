/**
 * The Markov chain of words of mark.go: prefixes of PrefixLength words, word bags
 * (word -> occurrence count), the chain (prefix -> bag), and the operations that
 * build the chain (Add) and walk it (Walk, GetDocument, GetOne, Len, Shift).
 */
module Mark {

  /** Number of words of context kept in a prefix. */
  const PrefixLength: nat := 2

  /** A fixed-length window of the most recent words; "" fills the places not yet seen. */
  type Prefix = p: seq<string> | |p| == PrefixLength witness ["", ""]

  /** A frequency-weighted set of words: each word maps to how often it was added. */
  type WordBag = map<string, int>

  /** The prefix every paragraph and every generated document starts from: all "" (Go's zero Prefix). */
  const Initial: Prefix := ["", ""]

  /** The word Walk answers when a prefix has no bag; never a word of the input. */
  const Terminal: string := ""

  // ---------------------------------------------------------------------------
  // Sums of counts

  /** The sum of all values of a map, in no particular order. */
  ghost function Sum<K>(m: map<K, int>): int
    decreases |m|
  {
    if m == map[] then 0
    else
      var k :| k in m;
      assert |m - {k}| < |m| by { assert (m - {k}).Keys == m.Keys - {k}; }
      m[k] + Sum(m - {k})
  }

  /** Removing any one key takes exactly its value off the sum. */
  lemma {:induction false} SumRemove<K>(m: map<K, int>, k: K)
    requires k in m
    ensures Sum(m) == m[k] + Sum(m - {k})
    decreases |m|
  {
    var j :| j in m && Sum(m) == m[j] + Sum(m - {j});
    if j != k {
      assert (m - {j}).Keys == m.Keys - {j};
      assert (m - {k}).Keys == m.Keys - {k};
      SumRemove(m - {j}, k);
      SumRemove(m - {k}, j);
      assert m - {j} - {k} == m - {k} - {j};
    }
  }

  /** Setting one key to v replaces its old value (0 when absent) by v in the sum. */
  lemma SumUpdate<K>(m: map<K, int>, k: K, v: int)
    ensures Sum(m[k := v]) == Sum(m) - (if k in m then m[k] else 0) + v
  {
    SumRemove(m[k := v], k);
    assert m[k := v] - {k} == m - {k};
    if k in m {
      SumRemove(m, k);
    } else {
      assert m - {k} == m;
    }
  }

  /** With every value at least 1, the sum is at least the number of keys. */
  lemma {:induction false} SumAtLeastSize<K>(m: map<K, int>)
    requires forall k :: k in m ==> m[k] >= 1
    ensures Sum(m) >= |m|
    decreases |m|
  {
    if m != map[] {
      var k :| k in m;
      SumRemove(m, k);
      assert (m - {k}).Keys == m.Keys - {k};
      SumAtLeastSize(m - {k});
    }
  }

  // ---------------------------------------------------------------------------
  // Word bags

  /** A bag as the chain keeps it: created with a first word, counts at least 1, no Terminal. */
  predicate BagValid(bag: WordBag) {
    bag != map[] && Terminal !in bag && forall w :: w in bag ==> bag[w] >= 1
  }

  /** The count of w in bag, 0 (Go's zero value) when w is absent. */
  function Get(bag: WordBag, w: string): int {
    if w in bag then bag[w] else 0
  }

  /** `order` lists every key of `keys` exactly once: one possible iteration order of a map. */
  ghost predicate IsOrdering(order: seq<string>, keys: set<string>) {
    && (forall i, j :: 0 <= i < j < |order| ==> order[i] != order[j])
    && (forall w :: w in keys <==> w in order)
  }

  /** Some iteration order of a finite set of words. */
  ghost function SeqOf(keys: set<string>): (order: seq<string>)
    ensures IsOrdering(order, keys)
    decreases |keys|
  {
    if keys == {} then []
    else
      var w :| w in keys;
      [w] + SeqOf(keys - {w})
  }

  /** The running sum of mark.go's scan after visiting the words of `visited`, in order. */
  function SumOf(bag: WordBag, visited: seq<string>): int
    decreases |visited|
  {
    if visited == [] then 0
    else SumOf(bag, visited[..|visited| - 1]) + Get(bag, visited[|visited| - 1])
  }

  /** Any iteration order ends the running sum at the bag's total weight. */
  lemma {:induction false} SumOfOrdering(bag: WordBag, order: seq<string>)
    requires IsOrdering(order, bag.Keys)
    ensures SumOf(bag, order) == Sum(bag)
    decreases |order|
  {
    if order == [] {
      assert bag == map[] by { assert forall w :: w !in bag; }
    } else {
      var n := |order|;
      var last, init := order[n - 1], order[..n - 1];
      var rest := bag - {last};
      assert IsOrdering(init, rest.Keys) by {
        forall w ensures w in rest.Keys <==> w in init {
          if w in init {
            var i :| 0 <= i < n - 1 && init[i] == w;
            assert order[i] == w && order[n - 1] == last;
          }
          assert w in order <==> w in init || w == last by { assert order == init + [last]; }
        }
      }
      SumOfOrdering(rest, init);
      SumOfAgree(bag, rest, init);
      SumRemove(bag, last);
    }
  }

  /** The running sum over `visited` only looks at the counts of the words visited. */
  lemma {:induction false} SumOfAgree(a: WordBag, b: WordBag, visited: seq<string>)
    requires forall w :: w in visited ==> Get(a, w) == Get(b, w)
    ensures SumOf(a, visited) == SumOf(b, visited)
    decreases |visited|
  {
    if visited != [] {
      SumOfAgree(a, b, visited[..|visited| - 1]);
    }
  }

  /** With positive counts, the running sum strictly grows along the scan. */
  lemma {:induction false} SumOfIncreasing(bag: WordBag, order: seq<string>, i: nat, k: nat)
    requires BagValid(bag)
    requires forall w :: w in order ==> w in bag
    requires i < k <= |order|
    ensures SumOf(bag, order[..i]) < SumOf(bag, order[..k])
    decreases k
  {
    assert order[..k][..k - 1] == order[..k - 1];
    assert order[k - 1] in bag;
    if i < k - 1 {
      SumOfIncreasing(bag, order, i, k - 1);
    }
  }

  /** Len: the total weight of the bag, summing every count (mark.go:98-103). */
  method Len(bag: WordBag) returns (sum: int)
    ensures sum == Sum(bag)
  {
    sum := 0;
    var left := bag;
    while left != map[]
      invariant sum + Sum(left) == Sum(bag)
      decreases |left|
    {
      var w :| w in left;
      SumRemove(left, w);
      sum := sum + left[w];
      assert (left - {w}).Keys == left.Keys - {w};
      left := left - {w};
    }
  }

  /** rand.Intn(n): the random source is a supplied draw, reduced into [0, n). */
  function Intn(n: int, draw: nat): (entry: int)
    requires n > 0
    ensures 0 <= entry < n
    ensures draw < n ==> entry == draw
  {
    draw % n
  }

  /**
   * The cumulative scan of mark.go:86-92 stops at index j of `order` for `entry`:
   * j is the first index whose running sum reaches `entry` (the test is `entry <= sum`).
   */
  ghost predicate StopsAt(bag: WordBag, order: seq<string>, entry: int, j: int) {
    && 0 <= j < |order|
    && entry <= SumOf(bag, order[..j + 1])
    && (j == 0 || SumOf(bag, order[..j]) < entry)
  }

  /**
   * GetOne (mark.go:84-95): draws entry in [0, Len), scans the bag in some iteration
   * order and returns the first word whose running sum reaches entry. The order is
   * Go's unspecified map order; it is returned (as ghost) so the contract can name it.
   * The panic after the loop is unreachable.
   */
  method GetOne(bag: WordBag, draw: nat) returns (word: string, ghost order: seq<string>, ghost j: nat)
    requires BagValid(bag)
    ensures IsOrdering(order, bag.Keys)
    ensures j < |order| && word == order[j] && word in bag
    ensures Sum(bag) >= 1 && StopsAt(bag, order, Intn(Sum(bag), draw), j)
  {
    SumAtLeastSize(bag);
    var n := Len(bag);
    var entry := Intn(n, draw);
    var sum := 0;
    var left := bag;
    ghost var seen: seq<string> := [];
    while left != map[]
      invariant ScanState(bag, left, seen, sum)
      invariant seen == [] || sum < entry
      decreases |left|
    {
      var w :| w in left;
      ScanStep(bag, left, seen, sum, w);
      if entry <= sum + left[w] {
        ScanStopsAt(bag, left, seen, sum, w, entry);
        word, order, j := w, seen + [w] + SeqOf((left - {w}).Keys), |seen|;
        return;
      }
      sum := sum + left[w];
      seen := seen + [w];
      left := left - {w};
    }
    assert false;
  }

  /**
   * Where the scan of GetOne stands: `left` holds the words not yet visited with their
   * counts, `seen` lists the visited ones in visiting order, and `sum` is their running sum.
   */
  ghost predicate ScanState(bag: WordBag, left: WordBag, seen: seq<string>, sum: int) {
    && left.Keys <= bag.Keys
    && (forall w :: w in left ==> left[w] == bag[w])
    && IsOrdering(seen, bag.Keys - left.Keys)
    && sum == SumOf(bag, seen)
    && sum + Sum(left) == Sum(bag)
  }

  /** Visiting one more word keeps the scan's bookkeeping. */
  lemma ScanStep(bag: WordBag, left: WordBag, seen: seq<string>, sum: int, w: string)
    requires ScanState(bag, left, seen, sum) && w in left
    ensures |left - {w}| < |left|
    ensures ScanState(bag, left - {w}, seen + [w], sum + left[w])
  {
    SumRemove(left, w);
    assert (seen + [w])[..|seen|] == seen;
    OrderingStep(seen, w, left.Keys, bag.Keys);
    assert (left - {w}).Keys == left.Keys - {w};
  }

  /** The scan stops at the word it visits next once that word's count reaches `entry`. */
  lemma ScanStopsAt(bag: WordBag, left: WordBag, seen: seq<string>, sum: int, w: string, entry: int)
    requires ScanState(bag, left, seen, sum) && w in left
    requires seen == [] || sum < entry
    requires entry <= sum + left[w]
    ensures IsOrdering(seen + [w] + SeqOf((left - {w}).Keys), bag.Keys)
    ensures StopsAt(bag, seen + [w] + SeqOf((left - {w}).Keys), entry, |seen|)
  {
    ScanStep(bag, left, seen, sum, w);
    var order := seen + [w] + SeqOf((left - {w}).Keys);
    assert order[..|seen| + 1] == seen + [w] && order[..|seen|] == seen;
    OrderingComplete(seen + [w], (left - {w}).Keys, bag.Keys);
  }

  /** Visiting one more key of the unvisited set `left` extends the visited ordering. */
  lemma OrderingStep(seen: seq<string>, w: string, left: set<string>, keys: set<string>)
    requires IsOrdering(seen, keys - left) && w in left && left <= keys
    ensures IsOrdering(seen + [w], keys - (left - {w}))
  {
    OrderingAppend(seen, [w], keys - left, {w});
    assert keys - left + {w} == keys - (left - {w});
  }

  /** The visited ordering followed by any ordering of the unvisited keys orders them all. */
  lemma OrderingComplete(seen: seq<string>, left: set<string>, keys: set<string>)
    requires IsOrdering(seen, keys - left) && left <= keys
    ensures IsOrdering(seen + SeqOf(left), keys)
  {
    OrderingAppend(seen, SeqOf(left), keys - left, left);
    assert keys - left + left == keys;
  }

  /** Two orderings of disjoint key sets concatenate to an ordering of their union. */
  lemma OrderingAppend(a: seq<string>, b: seq<string>, x: set<string>, y: set<string>)
    requires IsOrdering(a, x) && IsOrdering(b, y) && x !! y
    ensures IsOrdering(a + b, x + y)
  {
    forall i, j | 0 <= i < j < |a + b| ensures (a + b)[i] != (a + b)[j] {
      if i < |a| && j >= |a| {
        assert (a + b)[i] in x && (a + b)[j] in y;
      }
    }
  }

  /**
   * GetOne's answer for `bag` and `draw` is order[j]: `order` is an iteration order of the
   * bag and the scan stops at j for the entry Intn(Len, draw).
   */
  ghost predicate Chooses(bag: WordBag, draw: nat, order: seq<string>, j: nat) {
    && IsOrdering(order, bag.Keys)
    && j < |order|
    && Sum(bag) >= 1 && StopsAt(bag, order, Intn(Sum(bag), draw), j)
  }

  /**
   * For every iteration order and every entry in [0, Len) exactly one index is where
   * the scan stops: the ranges [0, c0], (S1, S2], ..., (S(n-1), Len) partition [0, Len).
   */
  lemma StopsAtExactlyOne(bag: WordBag, order: seq<string>, entry: int)
    requires BagValid(bag) && IsOrdering(order, bag.Keys)
    requires 0 <= entry < Sum(bag)
    ensures exists j :: StopsAt(bag, order, entry, j)
    ensures forall j, k :: StopsAt(bag, order, entry, j) && StopsAt(bag, order, entry, k) ==> j == k
  {
    SumOfOrdering(bag, order);
    assert order[..|order|] == order;
    StopsFrom(bag, order, entry, 0);
    forall j, k | StopsAt(bag, order, entry, j) && StopsAt(bag, order, entry, k) ensures j == k {
      StopsAtUnique(bag, order, entry, j, k);
    }
  }

  /** The running sums strictly grow, so two stopping indices for one entry coincide. */
  lemma StopsAtUnique(bag: WordBag, order: seq<string>, entry: int, j: int, k: int)
    requires BagValid(bag) && IsOrdering(order, bag.Keys)
    requires StopsAt(bag, order, entry, j) && StopsAt(bag, order, entry, k)
    ensures j == k
  {
    if j < k {
      SumOfIncreasing(bag, order, j + 1, k);
    } else if k < j {
      SumOfIncreasing(bag, order, k + 1, j);
    }
  }

  /** Scanning on from index j, whose running sum before it is still below entry, the scan stops. */
  lemma {:induction false} StopsFrom(bag: WordBag, order: seq<string>, entry: int, j: nat)
    requires j < |order| && (j == 0 || SumOf(bag, order[..j]) < entry)
    requires entry <= SumOf(bag, order[..|order|])
    ensures exists k :: StopsAt(bag, order, entry, k)
    decreases |order| - j
  {
    if entry <= SumOf(bag, order[..j + 1]) {
      assert StopsAt(bag, order, entry, j);
    } else {
      StopsFrom(bag, order, entry, j + 1);
    }
  }

  /**
   * The first word of the iteration order is selected for every entry in [0, c0]: when
   * the bag holds another word, c0 + 1 entries out of Len, one more than its count (the
   * `<=` of mark.go:89); in a one-word bag Len is c0 and the word takes every entry.
   */
  lemma FirstWordRange(bag: WordBag, order: seq<string>, entry: int)
    requires BagValid(bag) && IsOrdering(order, bag.Keys) && order != []
    requires 0 <= entry <= bag[order[0]]
    ensures StopsAt(bag, order, entry, 0)
  {
    assert order[..1][..0] == [];
  }

  /**
   * A word that comes last in the iteration order and was added once is never selected,
   * whatever the draw, as soon as the bag holds another word (again the `<=` of mark.go:89).
   */
  lemma LastSingletonNeverDrawn(bag: WordBag, order: seq<string>, entry: int)
    requires BagValid(bag) && IsOrdering(order, bag.Keys) && |order| >= 2
    requires bag[order[|order| - 1]] == 1
    requires 0 <= entry < Sum(bag)
    ensures !StopsAt(bag, order, entry, |order| - 1)
  {
    var n := |order|;
    SumOfOrdering(bag, order);
    assert order[..n] == order;
    assert SumOf(bag, order[..n]) == SumOf(bag, order[..n - 1]) + 1 by {
      assert order[..n][..n - 1] == order[..n - 1];
    }
  }

  // ---------------------------------------------------------------------------
  // Prefixes

  /** The prefix after `word`: each word moves one place down and `word` enters last. */
  function Shifted(p: Prefix, word: string): Prefix {
    p[1..] + [word]
  }

  /** The prefix after shifting in each of `words`, in order. */
  function ShiftAll(p: Prefix, words: seq<string>): Prefix
    decreases |words|
  {
    if words == [] then p
    else Shifted(ShiftAll(p, words[..|words| - 1]), words[|words| - 1])
  }

  /**
   * Shift (mark.go:106-111), in place on the prefix's array: p[i-1] takes the old p[i]
   * for 1 <= i < PrefixLength, and the last place takes `word`.
   */
  method Shift(p: array<string>, word: string)
    requires p.Length == PrefixLength
    modifies p
    ensures forall i :: 1 <= i < p.Length ==> p[i - 1] == old(p[i])
    ensures p[p.Length - 1] == word
    ensures p[..] == Shifted(old(p[..]), word)
  {
    for i := 1 to p.Length
      invariant forall k :: 0 <= k < i - 1 ==> p[k] == old(p[k + 1])
      invariant forall k :: i - 1 <= k < p.Length ==> p[k] == old(p[k])
    {
      p[i - 1] := p[i];
    }
    p[p.Length - 1] := word;
  }

  /** After shifting in `words`, the prefix is the last PrefixLength words of p followed by words. */
  lemma {:induction false} ShiftAllWindow(p: Prefix, words: seq<string>)
    ensures ShiftAll(p, words) == (p + words)[|words|..]
    decreases |words|
  {
    if words != [] {
      var n := |words|;
      var init, last := words[..n - 1], words[n - 1];
      ShiftAllWindow(p, init);
      assert p + words == (p + init) + [last] by { assert words == init + [last]; }
    }
  }

  /**
   * Starting from Initial, once at least PrefixLength words were shifted in the prefix is
   * the last PrefixLength of them: w1..wK gives (w1..wK), one more gives (w2..wK+1).
   */
  lemma ShiftFromInitial(words: seq<string>)
    requires |words| >= PrefixLength
    ensures ShiftAll(Initial, words) == words[|words| - PrefixLength..]
  {
    ShiftAllWindow(Initial, words);
    DropPadding(Initial, words);
  }

  /** Dropping |words| elements of pad + words leaves the last |pad| words. */
  lemma DropPadding(pad: seq<string>, words: seq<string>)
    requires |words| >= |pad|
    ensures (pad + words)[|words|..] == words[|words| - |pad|..]
  {
  }

  /** With fewer than PrefixLength words shifted in, "" padding still leads the prefix. */
  lemma ShiftFromInitialShort(words: seq<string>)
    requires |words| < PrefixLength
    ensures ShiftAll(Initial, words) == Initial[|words|..] + words
  {
    ShiftAllWindow(Initial, words);
  }

  /** Once a word has been shifted in, the prefix ends with the latest word. */
  lemma ShiftAllLast(p: Prefix, words: seq<string>)
    requires words != []
    ensures ShiftAll(p, words)[PrefixLength - 1] == words[|words| - 1]
  {
  }

  /** Shifting one more word into the prefix is one more Shifted step. */
  lemma ShiftAllAppend(p: Prefix, words: seq<string>, word: string)
    ensures ShiftAll(p, words + [word]) == Shifted(ShiftAll(p, words), word)
  {
    assert (words + [word])[..|words|] == words;
  }

  // ---------------------------------------------------------------------------
  // The chain

  /** The chain's invariant: a bag exists only once a word was added under its prefix. */
  ghost predicate WellFormed(table: map<Prefix, WordBag>) {
    forall p :: p in table ==> BagValid(table[p])
  }

  /** The count of `w` after prefix `p`, 0 when there is no bag or no such word. */
  function Count(table: map<Prefix, WordBag>, p: Prefix, w: string): int {
    if p in table then Get(table[p], w) else 0
  }

  /** The total weight (Len) of p's bag, 0 when p has no bag. */
  ghost function BagWeight(table: map<Prefix, WordBag>, p: Prefix): int {
    if p in table then Sum(table[p]) else 0
  }

  /** The weight of every bag of the chain, by prefix. */
  ghost function Weights(table: map<Prefix, WordBag>): map<Prefix, int> {
    map p | p in table :: Sum(table[p])
  }

  /** The chain's total weight: the sum of all counts of all bags. */
  ghost function Total(table: map<Prefix, WordBag>): int {
    Sum(Weights(table))
  }

  /**
   * The table after Add(p, w) (mark.go:46-53): p's bag is created if missing, the count
   * of w goes up by one; every other prefix and every other count stays as it was.
   */
  function Added(table: map<Prefix, WordBag>, p: Prefix, w: string): (r: map<Prefix, WordBag>)
    ensures r.Keys == table.Keys + {p}
    ensures p !in table ==> r[p] == map[w := 1]
    ensures p in table ==> r[p].Keys == table[p].Keys + {w}
    ensures forall q :: q in table && q != p ==> r[q] == table[q]
    ensures forall q, v :: Count(r, q, v) == Count(table, q, v) + (if q == p && v == w then 1 else 0)
    ensures WellFormed(table) && w != Terminal ==> WellFormed(r)
  {
    var bag := if p in table then table[p] else map[];
    table[p := bag[w := Get(bag, w) + 1]]
  }

  /** A second update of the same key overrides the first. */
  lemma UpdateTwice<K, V>(m: map<K, V>, k: K, first: V, second: V)
    ensures m[k := first][k := second] == m[k := second]
  {
  }

  /** Add raises the weight (Len) of p's bag by exactly one and leaves other bags' weights alone. */
  lemma AddedWeight(table: map<Prefix, WordBag>, p: Prefix, w: string, q: Prefix)
    ensures BagWeight(Added(table, p, w), q) == BagWeight(table, q) + (if q == p then 1 else 0)
  {
    if q == p {
      var bag := if p in table then table[p] else map[];
      SumUpdate(bag, w, Get(bag, w) + 1);
      if p !in table {
        assert Sum(bag) == 0;
      }
    }
  }

  /** Add raises the chain's total weight by exactly one. */
  lemma AddedTotal(table: map<Prefix, WordBag>, p: Prefix, w: string)
    ensures Total(Added(table, p, w)) == Total(table) + 1
  {
    var before := Weights(table);
    var after := Weights(Added(table, p, w));
    assert after == before[p := BagWeight(table, p) + 1] by {
      forall q | q in after ensures after[q] == before[p := BagWeight(table, p) + 1][q] {
        AddedWeight(table, p, w, q);
      }
    }
    SumUpdate(before, p, BagWeight(table, p) + 1);
  }

  /** One recorded transition: Add was called with this prefix and word. */
  datatype Transition = Transition(prefix: Prefix, word: string)

  /** The table after calling Add for each transition of `calls`, in order. */
  function AddAll(table: map<Prefix, WordBag>, calls: seq<Transition>): map<Prefix, WordBag>
    decreases |calls|
  {
    if calls == [] then table
    else
      var last := calls[|calls| - 1];
      Added(AddAll(table, calls[..|calls| - 1]), last.prefix, last.word)
  }

  /** How many of `calls` were made with prefix p. */
  function Uses(calls: seq<Transition>, p: Prefix): nat
    decreases |calls|
  {
    if calls == [] then 0
    else Uses(calls[..|calls| - 1], p) + (if calls[|calls| - 1].prefix == p then 1 else 0)
  }

  /** Each count is raised by exactly the number of Add calls with that prefix and word. */
  lemma {:induction false} AddAllCount(table: map<Prefix, WordBag>, calls: seq<Transition>, p: Prefix, w: string)
    ensures Count(AddAll(table, calls), p, w) == Count(table, p, w) + multiset(calls)[Transition(p, w)]
    decreases |calls|
  {
    if calls != [] {
      var n := |calls|;
      var init, last := calls[..n - 1], calls[n - 1];
      AddAllCount(table, init, p, w);
      assert calls == init + [last];
      assert multiset(calls)[Transition(p, w)] ==
        multiset(init)[Transition(p, w)] + (if last == Transition(p, w) then 1 else 0);
      assert AddAll(table, calls) == Added(AddAll(table, init), last.prefix, last.word);
    }
  }

  /** A bag's weight (Len) is raised by exactly the number of Add calls with its prefix. */
  lemma {:induction false} AddAllWeight(table: map<Prefix, WordBag>, calls: seq<Transition>, p: Prefix)
    ensures BagWeight(AddAll(table, calls), p) == BagWeight(table, p) + Uses(calls, p)
    decreases |calls|
  {
    if calls != [] {
      var n := |calls|;
      AddAllWeight(table, calls[..n - 1], p);
      AddedWeight(AddAll(table, calls[..n - 1]), calls[n - 1].prefix, calls[n - 1].word, p);
    }
  }

  /** The total weight is raised by exactly the number of Add calls. */
  lemma {:induction false} AddAllTotal(table: map<Prefix, WordBag>, calls: seq<Transition>)
    ensures Total(AddAll(table, calls)) == Total(table) + |calls|
    decreases |calls|
  {
    if calls != [] {
      var n := |calls|;
      AddAllTotal(table, calls[..n - 1]);
      AddedTotal(AddAll(table, calls[..n - 1]), calls[n - 1].prefix, calls[n - 1].word);
    }
  }

  /** A prefix has a bag exactly when it had one before or some Add call used it. */
  lemma {:induction false} AddAllKeys(table: map<Prefix, WordBag>, calls: seq<Transition>, p: Prefix)
    ensures p in AddAll(table, calls) <==> p in table || exists i :: 0 <= i < |calls| && calls[i].prefix == p
    decreases |calls|
  {
    if calls != [] {
      var n := |calls|;
      AddAllKeys(table, calls[..n - 1], p);
      var init := calls[..n - 1];
      if exists i :: 0 <= i < |init| && init[i].prefix == p {
        var i :| 0 <= i < |init| && init[i].prefix == p;
        assert calls[i].prefix == p;
      }
      if exists i :: 0 <= i < n && calls[i].prefix == p {
        var i :| 0 <= i < n && calls[i].prefix == p;
        if i < n - 1 {
          assert init[i].prefix == p;
        }
      }
    }
  }

  /**
   * Starting from an empty chain, a prefix used by exactly one call ends with a bag holding
   * just that call's word, counted once.
   */
  lemma AddAllSingleWord(calls: seq<Transition>, p: Prefix, w: string)
    requires forall i :: 0 <= i < |calls| ==> calls[i].word != Terminal
    requires forall v :: multiset(calls)[Transition(p, v)] == if v == w then 1 else 0
    ensures p in AddAll(map[], calls)
    ensures AddAll(map[], calls)[p] == map[w := 1]
  {
    AddAllWellFormed(map[], calls);
    var table := AddAll(map[], calls);
    AddAllCount(map[], calls, p, w);
    assert Count(table, p, w) == 1;
    var bag := table[p];
    assert BagValid(bag);
    forall v | v in bag ensures v == w {
      AddAllCount(map[], calls, p, v);
      assert Count(table, p, v) == bag[v];
    }
    Singleton(bag, w);
  }

  /** A bag whose only word is w, counted once, is map[w := 1]. */
  lemma Singleton(bag: WordBag, w: string)
    requires w in bag && bag[w] == 1
    requires forall v :: v in bag ==> v == w
    ensures bag == map[w := 1]
  {
    assert bag.Keys == {w};
  }

  /** Adding transitions whose words are not Terminal keeps the chain's invariant. */
  lemma {:induction false} AddAllWellFormed(table: map<Prefix, WordBag>, calls: seq<Transition>)
    requires WellFormed(table)
    requires forall i :: 0 <= i < |calls| ==> calls[i].word != Terminal
    ensures WellFormed(AddAll(table, calls))
    decreases |calls|
  {
    if calls != [] {
      AddAllWellFormed(table, calls[..|calls| - 1]);
    }
  }

  /**
   * A document the chain can produce: each word is in the bag of the prefix the words
   * before it lead to from Initial.
   */
  ghost predicate Generated(table: map<Prefix, WordBag>, doc: seq<string>) {
    forall i :: 0 <= i < |doc| ==>
      ShiftAll(Initial, doc[..i]) in table && doc[i] in table[ShiftAll(Initial, doc[..i])]
  }

  /** A generated document stays generated when a word of its last prefix's bag is appended. */
  lemma GeneratedStep(table: map<Prefix, WordBag>, doc: seq<string>, word: string)
    requires Generated(table, doc)
    requires ShiftAll(Initial, doc) in table && word in table[ShiftAll(Initial, doc)]
    ensures Generated(table, doc + [word])
  {
    var next := doc + [word];
    assert next[..|doc|] == doc;
    forall i | 0 <= i < |next|
      ensures ShiftAll(Initial, next[..i]) in table && next[i] in table[ShiftAll(Initial, next[..i])]
    {
      if i < |doc| {
        assert next[..i] == doc[..i];
      }
    }
  }

  /**
   * Each word of `doc` is GetOne's answer, for the matching draw and under the recorded
   * iteration order, from the bag of the prefix the words before it lead to.
   */
  ghost predicate Drawn(table: map<Prefix, WordBag>, doc: seq<string>, draws: seq<nat>,
                        orders: seq<seq<string>>, stops: seq<nat>) {
    && |doc| <= |draws| && |orders| == |stops| == |doc|
    && forall i :: 0 <= i < |doc| ==>
      && ShiftAll(Initial, doc[..i]) in table
      && Chooses(table[ShiftAll(Initial, doc[..i])], draws[i], orders[i], stops[i])
      && doc[i] == orders[i][stops[i]]
  }

  /** Appending GetOne's answer for the next draw from the current prefix's bag keeps Drawn. */
  lemma DrawnStep(table: map<Prefix, WordBag>, doc: seq<string>, draws: seq<nat>,
                  orders: seq<seq<string>>, stops: seq<nat>, prefix: Prefix, order: seq<string>, j: nat)
    requires Drawn(table, doc, draws, orders, stops) && |doc| < |draws|
    requires prefix == ShiftAll(Initial, doc) && prefix in table
    requires Chooses(table[prefix], draws[|doc|], order, j)
    ensures Drawn(table, doc + [order[j]], draws, orders + [order], stops + [j])
  {
    var next := doc + [order[j]];
    forall i | 0 <= i < |next|
      ensures ShiftAll(Initial, next[..i]) in table
      ensures Chooses(table[ShiftAll(Initial, next[..i])], draws[i], (orders + [order])[i], (stops + [j])[i])
      ensures next[i] == (orders + [order])[i][(stops + [j])[i]]
    {
      AppendPrefix(doc, order[j], i);
    }
  }

  /** A document drawn this way is one the chain can produce: each word GetOne picks is in its bag. */
  lemma DrawnGenerated(table: map<Prefix, WordBag>, doc: seq<string>, draws: seq<nat>,
                       orders: seq<seq<string>>, stops: seq<nat>)
    requires Drawn(table, doc, draws, orders, stops)
    ensures Generated(table, doc)
  {
    forall i | 0 <= i < |doc|
      ensures ShiftAll(Initial, doc[..i]) in table && doc[i] in table[ShiftAll(Initial, doc[..i])]
    {
      assert orders[i][stops[i]] in orders[i];
    }
  }

  /** The first i elements of doc + [w] are the first i of doc, or doc itself when i == |doc|. */
  lemma AppendPrefix<T>(doc: seq<T>, w: T, i: nat)
    requires i <= |doc|
    ensures (doc + [w])[..i] == if i < |doc| then doc[..i] else doc
  {
  }

  /** A generated document holds no Terminal, and an empty chain generates only the empty one. */
  lemma GeneratedWords(table: map<Prefix, WordBag>, doc: seq<string>)
    requires WellFormed(table) && Generated(table, doc)
    ensures forall i :: 0 <= i < |doc| ==> doc[i] != Terminal
    ensures table == map[] ==> doc == []
  {
    if doc != [] {
      assert doc[..0] == [];
    }
  }

  /** MarkVShaney (mark.go:38): the chain, a table from prefix to word bag, updated in place. */
  class Chain {
    var table: map<Prefix, WordBag>

    ghost predicate Valid()
      reads this
    {
      WellFormed(table)
    }

    /** An empty chain, as `MarkVShaney{}`. */
    constructor ()
      ensures Valid() && table == map[]
    {
      table := map[];
    }

    /** Add (mark.go:46-53): count one more `word` after `prefix`, creating the bag if needed. */
    method Add(prefix: Prefix, word: string)
      requires Valid() && word != Terminal
      modifies this
      ensures Valid()
      ensures table == Added(old(table), prefix, word)
    {
      ghost var start := table;
      var bag: WordBag;
      if prefix in table {
        bag := table[prefix];
      } else {
        bag := map[];
        table := table[prefix := bag];
      }
      var count := if word in bag then bag[word] else 0;
      var updated := bag[word := count + 1];
      table := table[prefix := updated];
      if prefix !in start {
        UpdateTwice(start, prefix, map[], updated);
      }
      assert table == Added(start, prefix, word);
    }

    /**
     * Walk (mark.go:76-81): Terminal exactly when the prefix has no bag, otherwise the word
     * of its bag that GetOne picks for the supplied random draw (with the iteration order
     * GetOne used, as ghost).
     */
    method Walk(prefix: Prefix, draw: nat) returns (word: string, ghost order: seq<string>, ghost j: nat)
      requires Valid()
      ensures word == Terminal <==> prefix !in table
      ensures prefix in table ==> Chooses(table[prefix], draw, order, j) && word == order[j]
    {
      if prefix in table {
        word, order, j := GetOne(table[prefix], draw);
      } else {
        word, order, j := Terminal, [], 0;
      }
    }

    /**
     * GetDocument (mark.go:61-73): walk from Initial, appending each word drawn and shifting
     * it into the prefix, until Walk answers Terminal. The loop of the source need not end
     * (a cyclic corpus), so `draws` supplies the random draws and bounds the number of
     * walks; `terminated` tells whether Terminal was reached within them.
     */
    method GetDocument(draws: seq<nat>)
      returns (result: seq<string>, terminated: bool, ghost orders: seq<seq<string>>, ghost stops: seq<nat>)
      requires Valid()
      ensures |result| <= |draws|
      ensures !terminated ==> |result| == |draws|
      ensures terminated ==> ShiftAll(Initial, result) !in table
      ensures forall i :: 0 <= i < |result| ==> result[i] != Terminal
      ensures Generated(table, result)
      ensures Drawn(table, result, draws, orders, stops)
      ensures table == map[] ==> result == []
    {
      result, orders, stops := [], [], [];
      terminated := false;
      var prefix := new string[PrefixLength](_ => Terminal);
      assert prefix[..] == Initial;
      var i := 0;
      while i < |draws|
        invariant i == |result| <= |draws|
        invariant prefix.Length == PrefixLength && prefix[..] == ShiftAll(Initial, result)
        invariant Drawn(table, result, draws, orders, stops)
      {
        ghost var order: seq<string>, j: nat;
        var word;
        word, order, j := Walk(prefix[..], draws[i]);
        if word == Terminal {
          terminated := true;
          DrawnGenerated(table, result, draws, orders, stops);
          GeneratedWords(table, result);
          return;
        }
        DrawnStep(table, result, draws, orders, stops, prefix[..], order, j);
        ShiftAllAppend(Initial, result, word);
        result, orders, stops := result + [word], orders + [order], stops + [j];
        Shift(prefix, word);
        i := i + 1;
      }
      DrawnGenerated(table, result, draws, orders, stops);
      GeneratedWords(table, result);
    }
  }
}
