/**
  The noise model of sockeye/noise.py: word deletion, local permutation and
  random insertion applied to each row of a padded batch of token ids, used to
  build the corrupted inputs of a denoising autoencoder.

  The random draws of the source (np.random.rand, np.random.randint) are
  explicit inputs here, so that every operator is a deterministic function of
  its arguments.
 */
module Noise {
  import opened Wrappers
  import opened Seqs

  /** The padding id (C.PAD_ID); the source strips padding with nonzero(). */
  const PAD_ID: int := 0

  // ---------------------------------------------------------------------------
  // Configuration and factory
  // ---------------------------------------------------------------------------

  datatype NoiseModelConfig = NoiseModelConfig(
    permutation: nat,     // largest offset added to a position's sort key
    deletion: real,       // a token is kept when its draw exceeds this
    insertion: real,      // an insertion fires when its draw is at most this
    insertionVocab: nat)  // inserted ids are drawn from [0, insertionVocab)

  datatype NoiseModel = NoiseModel(config: NoiseModelConfig)

  /** get_noise_model: refuses a configuration under which no noise is applied. */
  function GetNoiseModel(config: NoiseModelConfig): (r: Result<NoiseModel>)
    ensures r.Failure? <==>
      config.permutation < 1 && config.deletion <= 0.0 &&
      (config.insertion <= 0.0 || config.insertionVocab < 1)
    ensures r.Success? ==> r.value.config == config
  {
    if config.permutation < 1 && config.deletion <= 0.0 &&
       (config.insertion <= 0.0 || config.insertionVocab < 1)
    then Failure("Noise parameters are not effective (no noise will be applied)")
    else Success(NoiseModel(config))
  }

  // ---------------------------------------------------------------------------
  // Masks: np.take(s, mask.nonzero())
  // ---------------------------------------------------------------------------

  /** Number of set flags. */
  function Count(m: seq<bool>): (n: nat)
    ensures n <= |m|
  {
    if m == [] then 0 else (if m[0] then 1 else 0) + Count(m[1..])
  }

  lemma {:induction false} CountAppend(a: seq<bool>, b: seq<bool>)
    ensures Count(a + b) == Count(a) + Count(b)
  {
    if a == [] {
      assert a + b == b;
    } else {
      CountAppend(a[1..], b);
      TailOfAppend(a, b);
    }
  }

  /** Extending a prefix by one flag adds that flag to the count. */
  lemma CountPrefixStep(m: seq<bool>, i: nat)
    requires i < |m|
    ensures Count(m[..i + 1]) == Count(m[..i]) + (if m[i] then 1 else 0)
  {
    assert m[..i + 1] == m[..i] + [m[i]];
    CountAppend(m[..i], [m[i]]);
  }

  /** Counting over a longer prefix never counts fewer flags. */
  lemma CountPrefixMonotone(m: seq<bool>, i: nat, j: nat)
    requires i <= j <= |m|
    ensures Count(m[..i]) <= Count(m[..j])
  {
    assert m[..j] == m[..i] + m[i..j];
    CountAppend(m[..i], m[i..j]);
  }

  predicate AllSet(m: seq<bool>) {
    forall i :: 0 <= i < |m| ==> m[i]
  }

  predicate NoneSet(m: seq<bool>) {
    forall i :: 0 <= i < |m| ==> !m[i]
  }

  /** np.take(s, mask.nonzero()): the entries of s whose flag is set, in order. */
  function Select(s: seq<int>, mask: seq<bool>): (r: seq<int>)
    requires |mask| == |s|
    ensures |r| == Count(mask)
  {
    if s == [] then []
    else (if mask[0] then [s[0]] else []) + Select(s[1..], mask[1..])
  }

  /**
    Select keeps exactly the flagged entries in their original order: the
    flagged entry at position i is the Count(mask[..i])-th entry of the result,
    and there are Count(mask) entries.
   */
  lemma {:induction false} SelectAt(s: seq<int>, mask: seq<bool>, i: nat)
    requires |mask| == |s| && i < |s| && mask[i]
    ensures Count(mask[..i]) < |Select(s, mask)|
    ensures Select(s, mask)[Count(mask[..i])] == s[i]
  {
    if i > 0 {
      SelectAt(s[1..], mask[1..], i - 1);
      assert mask[..i] == [mask[0]] + mask[1..][..i - 1];
      CountAppend([mask[0]], mask[1..][..i - 1]);
    }
  }

  /** Every entry of a selection is a flagged entry of the input. */
  lemma {:induction false} SelectFrom(s: seq<int>, mask: seq<bool>, k: nat)
    requires |mask| == |s| && k < |Select(s, mask)|
    ensures exists i :: 0 <= i < |s| && mask[i] && s[i] == Select(s, mask)[k]
  {
    if mask[0] && k == 0 {
      assert mask[0] && s[0] == Select(s, mask)[k];
    } else {
      var k' := if mask[0] then k - 1 else k;
      SelectFrom(s[1..], mask[1..], k');
      var i :| 0 <= i < |s| - 1 && mask[1..][i] && s[1..][i] == Select(s[1..], mask[1..])[k'];
      assert mask[i + 1] && s[i + 1] == Select(s, mask)[k];
    }
  }

  lemma {:induction false} SelectAppend(a: seq<int>, b: seq<int>, ma: seq<bool>, mb: seq<bool>)
    requires |ma| == |a| && |mb| == |b|
    ensures Select(a + b, ma + mb) == Select(a, ma) + Select(b, mb)
  {
    if a == [] {
      assert a + b == b && ma + mb == mb;
    } else {
      SelectAppend(a[1..], b, ma[1..], mb);
      TailOfAppend(a, b);
      TailOfAppend(ma, mb);
    }
  }

  lemma {:induction false} SelectAll(s: seq<int>, mask: seq<bool>)
    requires |mask| == |s| && AllSet(mask)
    ensures Select(s, mask) == s
  {
    if s != [] {
      SelectAll(s[1..], mask[1..]);
    }
  }

  lemma {:induction false} SelectNone(s: seq<int>, mask: seq<bool>)
    requires |mask| == |s| && NoneSet(mask)
    ensures Select(s, mask) == []
  {
    if s != [] {
      SelectNone(s[1..], mask[1..]);
    }
  }

  // ---------------------------------------------------------------------------
  // Padding
  // ---------------------------------------------------------------------------

  predicate NoPad(s: seq<int>) {
    forall k :: 0 <= k < |s| ==> s[k] != PAD_ID
  }

  function NonzeroMask(row: seq<int>): (m: seq<bool>)
    ensures |m| == |row|
  {
    seq(|row|, i requires 0 <= i < |row| => row[i] != PAD_ID)
  }

  /** The live sequence of a row: every PAD removed (np.take(row, row.nonzero())). */
  function Strip(row: seq<int>): (r: seq<int>)
    ensures |r| <= |row|
  {
    Select(row, NonzeroMask(row))
  }

  /** A stripped row holds no PAD, and every entry of it comes from the row. */
  lemma StripHasNoPad(row: seq<int>)
    ensures NoPad(Strip(row))
    ensures forall x :: x in Strip(row) ==> x in row
  {
    forall k | 0 <= k < |Strip(row)|
      ensures Strip(row)[k] != PAD_ID && Strip(row)[k] in row
    {
      SelectFrom(row, NonzeroMask(row), k);
    }
  }

  /** n PAD ids. */
  function Pads(n: nat): (r: seq<int>)
    ensures |r| == n && forall k :: 0 <= k < n ==> r[k] == PAD_ID
  {
    seq(n, _ => PAD_ID)
  }

  /** A row of content followed by PAD up to length L. */
  function Padded(content: seq<int>, L: nat): (row: seq<int>)
    requires |content| <= L
  {
    content + Pads(L - |content|)
  }

  /**
    A padded row has length L, and stripping it gives back its content when
    the content holds no PAD.
   */
  lemma StripPadded(content: seq<int>, L: nat)
    requires |content| <= L && NoPad(content)
    ensures |Padded(content, L)| == L
    ensures Strip(Padded(content, L)) == content
  {
    var pads := Pads(L - |content|);
    assert Padded(content, L) == content + pads;
    assert NonzeroMask(content + pads) == NonzeroMask(content) + NonzeroMask(pads);
    SelectAppend(content, pads, NonzeroMask(content), NonzeroMask(pads));
    assert AllSet(NonzeroMask(content));
    SelectAll(content, NonzeroMask(content));
    assert NoneSet(NonzeroMask(pads));
    SelectNone(pads, NonzeroMask(pads));
    assert Select(content, NonzeroMask(content)) + Select(pads, NonzeroMask(pads)) == content;
  }

  // ---------------------------------------------------------------------------
  // Deletion
  // ---------------------------------------------------------------------------

  /** keep[i] holds when draw i is strictly greater than the deletion probability. */
  function KeepMask(draws: seq<real>, p: real): (m: seq<bool>)
    ensures |m| == |draws|
  {
    seq(|draws|, i requires 0 <= i < |draws| => draws[i] > p)
  }

  /** _deletion: keeps the tokens whose draw exceeds config.deletion. */
  function Deletion(config: NoiseModelConfig, s: seq<int>, draws: seq<real>): (r: seq<int>)
    requires |draws| == |s|
    ensures |r| <= |s|
  {
    Select(s, KeepMask(draws, config.deletion))
  }

  /**
    Deletion returns exactly the tokens whose draw exceeds the deletion
    probability, in their original order: as many tokens as there are such
    draws, and the i-th input token, when kept, at the position given by the
    number of tokens kept before it.
   */
  lemma DeletionKeepsFlagged(config: NoiseModelConfig, s: seq<int>, draws: seq<real>)
    requires |draws| == |s|
    ensures |Deletion(config, s, draws)| == Count(KeepMask(draws, config.deletion))
    ensures forall i :: 0 <= i < |s| && draws[i] > config.deletion ==>
      && Count(KeepMask(draws, config.deletion)[..i]) < |Deletion(config, s, draws)|
      && Deletion(config, s, draws)[Count(KeepMask(draws, config.deletion)[..i])] == s[i]
    ensures forall k :: 0 <= k < |Deletion(config, s, draws)| ==>
      exists i :: 0 <= i < |s| && draws[i] > config.deletion && Deletion(config, s, draws)[k] == s[i]
  {
    var keep := KeepMask(draws, config.deletion);
    forall i | 0 <= i < |s| && draws[i] > config.deletion
      ensures Count(keep[..i]) < |Deletion(config, s, draws)|
      ensures Deletion(config, s, draws)[Count(keep[..i])] == s[i]
    {
      SelectAt(s, keep, i);
    }
    forall k | 0 <= k < |Deletion(config, s, draws)|
      ensures exists i :: 0 <= i < |s| && draws[i] > config.deletion && Deletion(config, s, draws)[k] == s[i]
    {
      SelectFrom(s, keep, k);
      var i :| 0 <= i < |s| && keep[i] && s[i] == Select(s, keep)[k];
      assert draws[i] > config.deletion;
    }
  }

  // ---------------------------------------------------------------------------
  // Permutation
  // ---------------------------------------------------------------------------

  /** np.arange(length) + offset */
  function SortKeys(offsets: seq<int>): (keys: seq<int>)
    ensures |keys| == |offsets|
  {
    seq(|offsets|, i requires 0 <= i < |offsets| => i + offsets[i])
  }

  predicate OffsetsInRange(offsets: seq<int>, window: nat) {
    forall i :: 0 <= i < |offsets| ==> 0 <= offsets[i] <= window
  }

  predicate Distinct(l: seq<nat>) {
    forall j, k :: 0 <= j < k < |l| ==> l[j] != l[k]
  }

  /** l lists positions of keys in non-decreasing order of their keys. */
  predicate SortedBy(keys: seq<int>, l: seq<nat>) {
    && (forall j :: 0 <= j < |l| ==> l[j] < |keys|)
    && (forall j, k :: 0 <= j < k < |l| ==> keys[l[j]] <= keys[l[k]])
  }

  /**
    What np.argsort(keys) returns: every position of keys exactly once, in
    non-decreasing order of key. The order among equal keys is left open.
   */
  predicate IsArgsort(keys: seq<int>, order: seq<nat>) {
    && |order| == |keys|
    && SortedBy(keys, order)
    && Distinct(order)
    && (forall i :: 0 <= i < |keys| ==> i in order)
  }

  /** Inserts position x after every listed position whose key is at most its own. */
  function InsertByKey(keys: seq<int>, x: nat, l: seq<nat>): (r: seq<nat>)
    requires x < |keys| && SortedBy(keys, l)
    ensures |r| == |l| + 1
    ensures forall y :: y in r <==> y == x || y in l
    ensures forall j :: 0 <= j < |r| ==> r[j] < |keys|
  {
    if l == [] then [x]
    else if keys[l[0]] <= keys[x] then [l[0]] + InsertByKey(keys, x, l[1..])
    else [x] + l
  }

  /** Inserting by key keeps a list sorted by key. */
  lemma {:induction false} InsertByKeySorted(keys: seq<int>, x: nat, l: seq<nat>)
    requires x < |keys| && SortedBy(keys, l)
    ensures SortedBy(keys, InsertByKey(keys, x, l))
  {
    if l != [] && keys[l[0]] <= keys[x] {
      var rest := InsertByKey(keys, x, l[1..]);
      InsertByKeySorted(keys, x, l[1..]);
      forall k | 0 <= k < |rest|
        ensures keys[l[0]] <= keys[rest[k]]
      {
        if rest[k] != x {
          assert rest[k] in l[1..];
          var m :| 0 <= m < |l| - 1 && l[1..][m] == rest[k];
          assert l[m + 1] == rest[k];
        }
      }
      var r := [l[0]] + rest;
      forall j, k | 0 <= j < k < |r|
        ensures keys[r[j]] <= keys[r[k]]
      {
        assert r[k] == rest[k - 1];
        if j > 0 {
          assert r[j] == rest[j - 1];
        }
      }
    }
  }

  /** Inserting a new position into a list without repeats gives a list without repeats. */
  lemma {:induction false} InsertByKeyDistinct(keys: seq<int>, x: nat, l: seq<nat>)
    requires x < |keys| && SortedBy(keys, l) && Distinct(l) && x !in l
    ensures Distinct(InsertByKey(keys, x, l))
  {
    if l != [] && keys[l[0]] <= keys[x] {
      var rest := InsertByKey(keys, x, l[1..]);
      assert l == [l[0]] + l[1..];
      InsertByKeyDistinct(keys, x, l[1..]);
      assert l[0] !in l[1..];
      assert l[0] !in rest;
      var r := [l[0]] + rest;
      forall j, k | 0 <= j < k < |r|
        ensures r[j] != r[k]
      {
        assert r[k] == rest[k - 1];
        if j > 0 {
          assert r[j] == rest[j - 1];
        }
      }
    }
  }

  function ArgsortPrefix(keys: seq<int>, n: nat): (order: seq<nat>)
    requires n <= |keys|
    ensures |order| == n
    ensures SortedBy(keys, order) && Distinct(order)
    ensures forall y: nat :: y in order <==> y < n
  {
    if n == 0 then []
    else
      var prev := ArgsortPrefix(keys, n - 1);
      InsertByKeySorted(keys, n - 1, prev);
      InsertByKeyDistinct(keys, n - 1, prev);
      InsertByKey(keys, n - 1, prev)
  }

  /**
    np.argsort: positions of keys sorted by key. This one is an insertion
    sort, hence stable; the lemmas below hold for any order satisfying
    IsArgsort, so they do not depend on how ties are broken.
   */
  function Argsort(keys: seq<int>): (order: seq<nat>)
    ensures IsArgsort(keys, order)
  {
    ArgsortPrefix(keys, |keys|)
  }

  /** np.take(s, idx) */
  function Take(s: seq<int>, idx: seq<nat>): (r: seq<int>)
    requires forall j :: 0 <= j < |idx| ==> idx[j] < |s|
    ensures |r| == |idx|
  {
    seq(|idx|, j requires 0 <= j < |idx| => s[idx[j]])
  }

  /** _permutation: reorders s by the keys i + offsets[i]. */
  function Permutation(config: NoiseModelConfig, s: seq<int>, offsets: seq<int>): (r: seq<int>)
    requires |offsets| == |s| && OffsetsInRange(offsets, config.permutation)
    ensures |r| == |s|
  {
    Take(s, Argsort(SortKeys(offsets)))
  }

  lemma TakeCons(s: seq<int>, a: nat, l: seq<nat>)
    requires a < |s| && forall j :: 0 <= j < |l| ==> l[j] < |s|
    ensures Take(s, [a] + l) == [s[a]] + Take(s, l)
  {
  }

  lemma {:induction false} TakeInsert(s: seq<int>, keys: seq<int>, x: nat, l: seq<nat>)
    requires |keys| == |s| && x < |keys| && SortedBy(keys, l)
    ensures multiset(Take(s, InsertByKey(keys, x, l))) == multiset(Take(s, l)) + multiset{s[x]}
  {
    var r := InsertByKey(keys, x, l);
    if l == [] {
      assert Take(s, r) == [s[x]];
    } else if keys[l[0]] <= keys[x] {
      var rest := InsertByKey(keys, x, l[1..]);
      TakeInsert(s, keys, x, l[1..]);
      assert r == [l[0]] + rest;
      TakeCons(s, l[0], rest);
      assert l == [l[0]] + l[1..];
      TakeCons(s, l[0], l[1..]);
    } else {
      TakeCons(s, x, l);
    }
  }

  /** The multiset of a prefix grows by the next entry. */
  lemma MultisetPrefixStep(s: seq<int>, n: nat)
    requires 0 < n <= |s|
    ensures multiset(s[..n]) == multiset(s[..n - 1]) + multiset{s[n - 1]}
  {
    assert s[..n] == s[..n - 1] + [s[n - 1]];
  }

  lemma {:induction false} TakeArgsortPrefix(s: seq<int>, keys: seq<int>, n: nat)
    requires |keys| == |s| && n <= |s|
    ensures multiset(Take(s, ArgsortPrefix(keys, n))) == multiset(s[..n])
  {
    if n > 0 {
      TakeArgsortPrefix(s, keys, n - 1);
      TakeInsert(s, keys, n - 1, ArgsortPrefix(keys, n - 1));
      MultisetPrefixStep(s, n);
    }
  }

  /**
    Permutation only rearranges: same length, same tokens with the same
    multiplicities, and the output lists the input positions in non-decreasing
    order of their keys i + offsets[i].
   */
  lemma PermutationRearranges(config: NoiseModelConfig, s: seq<int>, offsets: seq<int>)
    requires |offsets| == |s| && OffsetsInRange(offsets, config.permutation)
    ensures var order := Argsort(SortKeys(offsets));
      && IsArgsort(SortKeys(offsets), order)
      && (forall j :: 0 <= j < |s| ==> Permutation(config, s, offsets)[j] == s[order[j]])
    ensures multiset(Permutation(config, s, offsets)) == multiset(s)
  {
    TakeArgsortPrefix(s, SortKeys(offsets), |s|);
    assert s[..|s|] == s;
  }

  lemma {:induction false} DistinctCard(l: seq<nat>)
    requires Distinct(l)
    ensures |Elems(l)| == |l|
  {
    if l != [] {
      assert Distinct(l[1..]);
      DistinctCard(l[1..]);
      assert Elems(l) == {l[0]} + Elems(l[1..]);
      assert l[0] !in Elems(l[1..]);
    }
  }

  /** The naturals below n. */
  function Below(n: nat): (r: set<nat>)
    ensures forall x: int :: x in r <==> 0 <= x < n
    ensures |r| == n
  {
    if n == 0 then {}
    else
      assert n - 1 !in Below(n - 1);
      Below(n - 1) + {n - 1}
  }

  lemma SubsetCard(a: set<nat>, b: set<nat>)
    requires a <= b
    ensures |a| <= |b|
  {
    assert b == a + (b - a);
  }

  /**
    In any argsort of keys with i <= keys[i] <= i + window, the position that
    lands at output index j came from no more than window places away.
   */
  lemma DisplacementBound(keys: seq<int>, order: seq<nat>, window: nat, j: nat)
    requires IsArgsort(keys, order)
    requires forall i :: 0 <= i < |keys| ==> i <= keys[i] <= i + window
    requires j < |order|
    ensures order[j] <= j + window && j <= order[j] + window
  {
    assert Distinct(order[..j]);
    DistinctCard(order[..j]);
    OutputIndexBound(keys, order, window, j);
    InputIndexBound(keys, order, window, j);
  }

  /**
    Everything placed before output index j has a key at most that of
    order[j], hence an input position at most order[j] + window; so j is
    at most order[j] + window.
   */
  lemma OutputIndexBound(keys: seq<int>, order: seq<nat>, window: nat, j: nat)
    requires IsArgsort(keys, order)
    requires forall i :: 0 <= i < |keys| ==> i <= keys[i] <= i + window
    requires j < |order| && |Elems(order[..j])| == j
    ensures j <= order[j] + window
  {
    var i := order[j];
    var before := Elems(order[..j]);
    var others := Below(i + window + 1) - {i};
    forall m | m in before
      ensures m in others
    {
      var p :| 0 <= p < j && order[p] == m;
      assert keys[order[p]] <= keys[order[j]];
    }
    assert |others| == i + window;
    SubsetCard(before, others);
  }

  /**
    Every input position below order[j] - window has a smaller key than
    order[j], so it is placed before output index j; so order[j] is at most
    j + window.
   */
  lemma InputIndexBound(keys: seq<int>, order: seq<nat>, window: nat, j: nat)
    requires IsArgsort(keys, order)
    requires forall i :: 0 <= i < |keys| ==> i <= keys[i] <= i + window
    requires j < |order| && |Elems(order[..j])| == j
    ensures order[j] <= j + window
  {
    var i := order[j];
    if i > window {
      var before := Elems(order[..j]);
      var low := Below(i - window);
      forall m | m in low
        ensures m in before
      {
        assert m < |keys|;
        assert m in order;
        var p :| 0 <= p < |order| && order[p] == m;
        assert p < j;
        assert order[..j][p] == m;
      }
      SubsetCard(low, before);
    }
  }

  /**
    No token moves more than config.permutation places: the token at output
    position j is the input token at order[j], with |order[j] - j| bounded by
    the window.
   */
  lemma PermutationDisplacement(config: NoiseModelConfig, s: seq<int>, offsets: seq<int>)
    requires |offsets| == |s| && OffsetsInRange(offsets, config.permutation)
    ensures var order := Argsort(SortKeys(offsets));
      forall j :: 0 <= j < |s| ==>
        && Permutation(config, s, offsets)[j] == s[order[j]]
        && order[j] <= j + config.permutation
        && j <= order[j] + config.permutation
  {
    var keys := SortKeys(offsets);
    var order := Argsort(keys);
    forall j | 0 <= j < |s|
      ensures order[j] <= j + config.permutation && j <= order[j] + config.permutation
    {
      DisplacementBound(keys, order, config.permutation, j);
    }
  }

  /** With a zero window every offset is 0, and the permutation is the identity. */
  lemma PermutationZeroIsIdentity(config: NoiseModelConfig, s: seq<int>, offsets: seq<int>)
    requires |offsets| == |s| && OffsetsInRange(offsets, config.permutation)
    requires config.permutation == 0
    ensures Permutation(config, s, offsets) == s
  {
    PermutationDisplacement(config, s, offsets);
  }

  /** Each position below n exactly once, and nothing else. */
  predicate IsPositionList(order: seq<nat>, n: nat) {
    && |order| == n
    && Distinct(order)
    && (forall j :: 0 <= j < |order| ==> order[j] < n)
    && (forall i :: 0 <= i < n ==> i in order)
  }

  /** Removing the last position n - 1 from a list of the positions below n. */
  lemma DropLastPosition(order: seq<nat>, n: nat, p: nat)
    requires IsPositionList(order, n) && p < |order| && order[p] == n - 1
    ensures IsPositionList(order[..p] + order[p + 1..], n - 1)
  {
    var rest := order[..p] + order[p + 1..];
    assert forall j :: 0 <= j < |rest| ==> rest[j] == if j < p then order[j] else order[j + 1];
    forall j, k | 0 <= j < k < |rest|
      ensures rest[j] != rest[k]
    {
      var j' := if j < p then j else j + 1;
      var k' := if k < p then k else k + 1;
      assert rest[j] == order[j'] && rest[k] == order[k'] && j' < k';
    }
    forall j | 0 <= j < |rest|
      ensures rest[j] < n - 1
    {
      var j' := if j < p then j else j + 1;
      assert rest[j] == order[j'] && j' != p;
    }
    forall i | 0 <= i < n - 1
      ensures i in rest
    {
      assert i in order;
      var q :| 0 <= q < |order| && order[q] == i;
      if q < p {
        assert rest[q] == i;
      } else {
        assert q != p;
        assert rest[q - 1] == i;
      }
    }
  }

  /** np.take over a concatenation of index lists. */
  lemma TakeAppend(s: seq<int>, a: seq<nat>, b: seq<nat>)
    requires forall j :: 0 <= j < |a| ==> a[j] < |s|
    requires forall j :: 0 <= j < |b| ==> b[j] < |s|
    ensures Take(s, a + b) == Take(s, a) + Take(s, b)
  {
  }

  /** Taking the entry at index p out of an index list takes its token out of the result. */
  lemma TakeWithout(s: seq<int>, order: seq<nat>, p: nat)
    requires p < |order| && forall j :: 0 <= j < |order| ==> order[j] < |s|
    ensures multiset(Take(s, order))
         == multiset(Take(s, order[..p] + order[p + 1..])) + multiset{s[order[p]]}
  {
    var before, after := order[..p], order[p + 1..];
    assert order == before + ([order[p]] + after);
    TakeAppend(s, before, [order[p]] + after);
    TakeAppend(s, [order[p]], after);
    TakeAppend(s, before, after);
  }

  /** Positions below n take the same tokens from s and from s[..n]. */
  lemma TakePrefix(s: seq<int>, n: nat, l: seq<nat>)
    requires n <= |s| && forall j :: 0 <= j < |l| ==> l[j] < n
    ensures Take(s[..n], l) == Take(s, l)
  {
  }

  /** Taking s in the order of any list of its positions keeps its multiset. */
  lemma {:induction false} TakePositionList(s: seq<int>, order: seq<nat>)
    requires IsPositionList(order, |s|)
    ensures multiset(Take(s, order)) == multiset(s)
  {
    if |s| > 0 {
      var n := |s| - 1;
      assert n in order;
      var p :| 0 <= p < |order| && order[p] == n;
      var rest := order[..p] + order[p + 1..];
      DropLastPosition(order, |s|, p);
      TakePositionList(s[..n], rest);
      TakePrefix(s, n, rest);
      TakeWithout(s, order, p);
      assert multiset(Take(s, rest)) == multiset(s[..n]);
      MultisetPrefixStep(s, |s|);
      assert s[..|s|] == s;
      assert multiset(s) == multiset(s[..n]) + multiset{s[n]};
    }
  }

  /**
    The permutation properties for whatever order np.argsort returns, ties
    broken in any way: the tokens keep their multiset, none moves more than
    config.permutation places, and a zero window gives the input back.
   */
  lemma PermutationAnyOrder(config: NoiseModelConfig, s: seq<int>, offsets: seq<int>, order: seq<nat>)
    requires |offsets| == |s| && OffsetsInRange(offsets, config.permutation)
    requires IsArgsort(SortKeys(offsets), order)
    ensures multiset(Take(s, order)) == multiset(s)
    ensures forall j :: 0 <= j < |s| ==>
      order[j] <= j + config.permutation && j <= order[j] + config.permutation
    ensures config.permutation == 0 ==> Take(s, order) == s
  {
    TakePositionList(s, order);
    forall j | 0 <= j < |s|
      ensures order[j] <= j + config.permutation && j <= order[j] + config.permutation
    {
      DisplacementBound(SortKeys(offsets), order, config.permutation, j);
    }
  }

  // ---------------------------------------------------------------------------
  // Insertion
  // ---------------------------------------------------------------------------

  /** insert_value[i] holds when draw i is at most the insertion probability. */
  function InsertMask(draws: seq<real>, q: real): (m: seq<bool>)
    ensures |m| == |draws|
  {
    seq(|draws|, i requires 0 <= i < |draws| => draws[i] <= q)
  }

  /**
    How many insertions the scan may perform before it stops: none when the
    sentence is already maxLen long, otherwise until the length reaches maxLen
    (which, for a sentence already longer than maxLen, is after the first).
   */
  function Room(length: nat, maxLen: nat): (r: nat)
    ensures length == maxLen ==> r == 0
    ensures length != maxLen ==>
      r >= 1 && length + r >= maxLen && (r == 1 || length + (r - 1) < maxLen)
  {
    if length == maxLen then 0
    else if length < maxLen then maxLen - length
    else 1
  }

  /** The flags that actually lead to an insertion: those before the room runs out. */
  function Fired(flags: seq<bool>, room: nat): (f: seq<bool>)
    ensures |f| == |flags|
    ensures forall i :: 0 <= i < |flags| && f[i] ==> flags[i]
  {
    seq(|flags|, i requires 0 <= i < |flags| => flags[i] && Count(flags[..i]) < room)
  }

  /** Insertions fire until room of them have fired, and no more. */
  lemma {:induction false} FiredCount(flags: seq<bool>, room: nat, n: nat)
    requires n <= |flags|
    ensures var c := Count(flags[..n]);
      Count(Fired(flags, room)[..n]) == if c < room then c else room
  {
    if n > 0 {
      FiredCount(flags, room, n - 1);
      CountPrefixStep(flags, n - 1);
      CountPrefixStep(Fired(flags, room), n - 1);
    }
  }

  /**
    s with one new token, ids[i] + reserved, placed immediately before each
    position i whose flag is set.
   */
  function Splice(s: seq<int>, fired: seq<bool>, ids: seq<int>, reserved: nat): (r: seq<int>)
    requires |fired| == |s| && |ids| == |s|
    ensures |r| == |s| + Count(fired)
  {
    if s == [] then []
    else (if fired[0] then [ids[0] + reserved] else []) + [s[0]]
         + Splice(s[1..], fired[1..], ids[1..], reserved)
  }

  /** Marks the positions of Splice(s, fired, ...) that hold an original token. */
  function OriginalMask(fired: seq<bool>): (m: seq<bool>)
    ensures |m| == |fired| + Count(fired)
  {
    if fired == [] then []
    else (if fired[0] then [false] else []) + [true] + OriginalMask(fired[1..])
  }

  lemma {:induction false} SpliceAppend(a: seq<int>, b: seq<int>, fa: seq<bool>, fb: seq<bool>,
                                        ia: seq<int>, ib: seq<int>, reserved: nat)
    requires |fa| == |a| && |ia| == |a| && |fb| == |b| && |ib| == |b|
    ensures Splice(a + b, fa + fb, ia + ib, reserved)
         == Splice(a, fa, ia, reserved) + Splice(b, fb, ib, reserved)
  {
    if a == [] {
      assert a + b == b && fa + fb == fb && ia + ib == ib;
    } else {
      SpliceAppend(a[1..], b, fa[1..], fb, ia[1..], ib, reserved);
      TailOfAppend(a, b);
      TailOfAppend(fa, fb);
      TailOfAppend(ia, ib);
    }
  }

  /** A splice of s is the splice of its first n positions followed by the splice of the rest. */
  lemma SpliceSplit(s: seq<int>, fired: seq<bool>, ids: seq<int>, reserved: nat, n: nat)
    requires |fired| == |s| && |ids| == |s| && n <= |s|
    ensures Splice(s, fired, ids, reserved)
         == Splice(s[..n], fired[..n], ids[..n], reserved) + Splice(s[n..], fired[n..], ids[n..], reserved)
  {
    SplitAt(s, n);
    SplitAt(fired, n);
    SplitAt(ids, n);
    SpliceAppend(s[..n], s[n..], fired[..n], fired[n..], ids[..n], ids[n..], reserved);
  }

  lemma {:induction false} SpliceNone(s: seq<int>, fired: seq<bool>, ids: seq<int>, reserved: nat)
    requires |fired| == |s| && |ids| == |s| && NoneSet(fired)
    ensures Splice(s, fired, ids, reserved) == s
  {
    if s != [] {
      SpliceNone(s[1..], fired[1..], ids[1..], reserved);
    }
  }

  /** One more position of the scan adds its insertion, if any, then its token. */
  lemma SpliceStep(s: seq<int>, fired: seq<bool>, ids: seq<int>, reserved: nat, i: nat)
    requires |fired| == |s| && |ids| == |s| && i < |s|
    ensures Splice(s[..i + 1], fired[..i + 1], ids[..i + 1], reserved)
         == Splice(s[..i], fired[..i], ids[..i], reserved)
            + (if fired[i] then [ids[i] + reserved] else []) + [s[i]]
  {
    assert s[..i + 1] == s[..i] + [s[i]];
    assert fired[..i + 1] == fired[..i] + [fired[i]];
    assert ids[..i + 1] == ids[..i] + [ids[i]];
    SpliceAppend(s[..i], [s[i]], fired[..i], [fired[i]], ids[..i], [ids[i]], reserved);
  }

  /** The original-token mask of one spliced position selects the original token. */
  lemma SelectSpliceHead(x: int, y: int, f: bool)
    ensures Select((if f then [y] else []) + [x], (if f then [false] else []) + [true]) == [x]
  {
    if f {
      assert [y] + [x] == [y, x] && [false] + [true] == [false, true];
      assert [y, x][1..] == [x] && [false, true][1..] == [true];
    }
  }

  /** Deleting the inserted tokens from a splice gives back the input, in order. */
  lemma {:induction false} SpliceDropInserted(s: seq<int>, fired: seq<bool>, ids: seq<int>, reserved: nat)
    requires |fired| == |s| && |ids| == |s|
    ensures Select(Splice(s, fired, ids, reserved), OriginalMask(fired)) == s
  {
    if s != [] {
      var head := (if fired[0] then [ids[0] + reserved] else []) + [s[0]];
      var mhead := (if fired[0] then [false] else []) + [true];
      SpliceDropInserted(s[1..], fired[1..], ids[1..], reserved);
      SelectAppend(head, Splice(s[1..], fired[1..], ids[1..], reserved),
                   mhead, OriginalMask(fired[1..]));
      SelectSpliceHead(s[0], ids[0] + reserved, fired[0]);
    }
  }

  /**
    Where each token of a splice sits: the original token i is shifted right
    by the insertions at or before it, and a token inserted for position i
    sits immediately before it, with id ids[i] + reserved.
   */
  lemma SpliceAt(s: seq<int>, fired: seq<bool>, ids: seq<int>, reserved: nat, i: nat)
    requires |fired| == |s| && |ids| == |s| && i < |s|
    ensures i + Count(fired[..i + 1]) < |Splice(s, fired, ids, reserved)|
    ensures Splice(s, fired, ids, reserved)[i + Count(fired[..i + 1])] == s[i]
    ensures fired[i] ==> i + Count(fired[..i]) < |Splice(s, fired, ids, reserved)|
    ensures fired[i] ==> Splice(s, fired, ids, reserved)[i + Count(fired[..i])] == ids[i] + reserved
  {
    var r := Splice(s, fired, ids, reserved);
    var before := Splice(s[..i], fired[..i], ids[..i], reserved);
    var upto := Splice(s[..i + 1], fired[..i + 1], ids[..i + 1], reserved);
    var after := Splice(s[i + 1..], fired[i + 1..], ids[i + 1..], reserved);
    SpliceSplit(s, fired, ids, reserved, i + 1);
    assert r == upto + after;
    SpliceStep(s, fired, ids, reserved, i);
    CountPrefixStep(fired, i);
    assert |before| == i + Count(fired[..i]);
    assert r[|upto| - 1] == upto[|upto| - 1] == s[i];
    if fired[i] {
      assert r[|before|] == upto[|before|] == ids[i] + reserved;
    }
  }

  /** Every token of a splice is either an original token or an inserted id in range. */
  lemma {:induction false} SpliceTokenAt(s: seq<int>, fired: seq<bool>, ids: seq<int>,
                                         reserved: nat, vocab: nat, k: nat)
    requires |fired| == |s| && |ids| == |s|
    requires forall i :: 0 <= i < |s| && fired[i] ==> 0 <= ids[i] < vocab
    requires k < |Splice(s, fired, ids, reserved)|
    ensures OriginalMask(fired)[k] ==> Splice(s, fired, ids, reserved)[k] in s
    ensures !OriginalMask(fired)[k] ==>
      reserved <= Splice(s, fired, ids, reserved)[k] < reserved + vocab
  {
    var h := if fired[0] then 1 else 0;
    var r' := Splice(s[1..], fired[1..], ids[1..], reserved);
    var m' := OriginalMask(fired[1..]);
    var r := (if fired[0] then [ids[0] + reserved] else []) + [s[0]] + r';
    var m := (if fired[0] then [false] else []) + [true] + m';
    assert Splice(s, fired, ids, reserved) == r;
    assert OriginalMask(fired) == m;
    if k < h {
      assert r[k] == ids[0] + reserved && !m[k];
    } else if k == h {
      assert r[k] == s[0] && m[k];
    } else {
      var k' := k - h - 1;
      SpliceTokenAt(s[1..], fired[1..], ids[1..], reserved, vocab, k');
      assert r[k] == r'[k'] && m[k] == m'[k'];
      if m[k] {
        assert r'[k'] in s[1..];
      }
    }
  }

  /** The insertions that _insertion performs on s for the given draws. */
  function FiredFor(config: NoiseModelConfig, s: seq<int>, maxLen: nat, draws: seq<real>): (f: seq<bool>)
    requires |draws| == |s|
    ensures |f| == |s|
  {
    Fired(InsertMask(draws, config.insertion), Room(|s|, maxLen))
  }

  /** The result of _insertion, as a function of its inputs. */
  function Inserted(config: NoiseModelConfig, s: seq<int>, maxLen: nat,
                    draws: seq<real>, ids: seq<int>, reserved: nat): (r: seq<int>)
    requires |draws| == |s| && |ids| == |s|
    ensures |r| == |s| + Count(FiredFor(config, s, maxLen, draws))
  {
    Splice(s, FiredFor(config, s, maxLen, draws), ids, reserved)
  }

  /** The ids drawn for the insertions that fire lie in [0, vocab). */
  predicate IdsInRange(fired: seq<bool>, ids: seq<int>, vocab: nat)
    requires |ids| == |fired|
  {
    forall i :: 0 <= i < |fired| && fired[i] ==> 0 <= ids[i] < vocab
  }

  /** Before the room runs out, the insertion at position i fires exactly when it is flagged. */
  lemma ScanFired(flags: seq<bool>, room: nat, i: nat)
    requires i < |flags|
    requires Fired(flags, room)[..i] == flags[..i]
    requires Count(flags[..i]) < room
    ensures Fired(flags, room)[..i + 1] == flags[..i + 1]
    ensures Count(flags[..i + 1]) == Count(flags[..i]) + (if flags[i] then 1 else 0)
  {
    var fired := Fired(flags, room);
    CountPrefixStep(flags, i);
    assert fired[i] == flags[i];
    assert fired[..i + 1] == fired[..i] + [fired[i]];
    assert flags[..i + 1] == flags[..i] + [flags[i]];
  }

  /** Inserting at position i + offset of the partly spliced sentence splices one more position. */
  lemma ScanSplice(s: seq<int>, fired: seq<bool>, ids: seq<int>, reserved: nat,
                   i: nat, offset: nat, r: seq<int>)
    requires |fired| == |s| && |ids| == |s| && i < |s|
    requires offset == Count(fired[..i])
    requires r == Splice(s[..i], fired[..i], ids[..i], reserved) + s[i..]
    ensures i + offset < |r|
    ensures (if fired[i] then r[..i + offset] + [ids[i] + reserved] + r[i + offset..] else r)
         == Splice(s[..i + 1], fired[..i + 1], ids[..i + 1], reserved) + s[i + 1..]
  {
    var prefix := Splice(s[..i], fired[..i], ids[..i], reserved);
    SpliceStep(s, fired, ids, reserved, i);
    assert s[i..] == [s[i]] + s[i + 1..];
    InsertBefore(prefix, s[i], s[i + 1..], r, ids[i] + reserved, fired[i], i + offset,
                 Splice(s[..i + 1], fired[..i + 1], ids[..i + 1], reserved));
  }

  /** Once the room is used up at position i, no later insertion fires. */
  lemma FiredNoneAfter(flags: seq<bool>, room: nat, i: nat)
    requires i < |flags| && Count(flags[..i + 1]) >= room
    ensures NoneSet(Fired(flags, room)[i + 1..])
  {
    var fired := Fired(flags, room);
    forall j | i + 1 <= j < |flags|
      ensures !fired[j]
    {
      CountPrefixMonotone(flags, i + 1, j);
    }
  }

  /** A splice that inserts nothing after position n keeps the tail from n as is. */
  lemma SpliceKeepsTail(s: seq<int>, fired: seq<bool>, ids: seq<int>, reserved: nat, n: nat)
    requires |fired| == |s| && |ids| == |s| && n <= |s|
    requires NoneSet(fired[n..])
    ensures Splice(s, fired, ids, reserved) == Splice(s[..n], fired[..n], ids[..n], reserved) + s[n..]
  {
    SpliceSplit(s, fired, ids, reserved, n);
    SpliceNone(s[n..], fired[n..], ids[n..], reserved);
  }

  /** Once the room is used up at position i, the rest of the sentence is kept as is. */
  lemma ScanStop(s: seq<int>, flags: seq<bool>, room: nat, ids: seq<int>, reserved: nat,
                 i: nat, r: seq<int>)
    requires |flags| == |s| && |ids| == |s| && i < |s|
    requires Count(flags[..i + 1]) >= room
    requires r == Splice(s[..i + 1], Fired(flags, room)[..i + 1], ids[..i + 1], reserved) + s[i + 1..]
    ensures r == Splice(s, Fired(flags, room), ids, reserved)
  {
    FiredNoneAfter(flags, room, i);
    SpliceKeepsTail(s, Fired(flags, room), ids, reserved, i + 1);
  }

  /**
    _insertion: scans the positions in order, inserts a drawn id before each
    position whose draw is at most config.insertion, and stops as soon as the
    length reaches maxLen; a sentence already maxLen long is returned as is.
   */
  method Insertion(config: NoiseModelConfig, sentence: seq<int>, maxLen: nat,
                   draws: seq<real>, ids: seq<int>, reserved: nat) returns (r: seq<int>)
    requires |draws| == |sentence| && |ids| == |sentence|
    requires IdsInRange(FiredFor(config, sentence, maxLen, draws), ids, config.insertionVocab)
    ensures r == Inserted(config, sentence, maxLen, draws, ids, reserved)
  {
    var length := |sentence|;
    ghost var room := Room(length, maxLen);
    ghost var fired := Fired(InsertMask(draws, config.insertion), room);
    if length == maxLen {
      assert NoneSet(fired);
      SpliceNone(sentence, fired, ids, reserved);
      return sentence;
    }
    var insertValue := InsertMask(draws, config.insertion);
    var offset := 0;
    r := sentence;
    var i := 0;
    while i < length
      invariant 0 <= i <= length
      invariant fired[..i] == insertValue[..i]
      invariant offset == Count(insertValue[..i]) < room
      invariant r == Splice(sentence[..i], fired[..i], ids[..i], reserved) + sentence[i..]
    {
      ScanFired(insertValue, room, i);
      ScanSplice(sentence, fired, ids, reserved, i, offset, r);
      if insertValue[i] {
        r := r[..i + offset] + [ids[i] + reserved] + r[i + offset..];
        offset := offset + 1;
        if length + offset >= maxLen {
          ScanStop(sentence, insertValue, room, ids, reserved, i, r);
          return;
        }
      }
      i := i + 1;
    }
    assert sentence[..i] == sentence && fired[..i] == fired && ids[..i] == ids;
  }

  /**
    Insertion never makes a sentence longer than maxLen when it starts at most
    maxLen long, and leaves a sentence of exactly maxLen tokens unchanged. It
    adds one token per insertion that fires, and at most Room(|s|, maxLen).
   */
  lemma InsertedLength(config: NoiseModelConfig, s: seq<int>, maxLen: nat,
                       draws: seq<real>, ids: seq<int>, reserved: nat)
    requires |draws| == |s| && |ids| == |s|
    ensures |s| <= |Inserted(config, s, maxLen, draws, ids, reserved)| <= |s| + Room(|s|, maxLen)
    ensures |s| <= maxLen ==> |Inserted(config, s, maxLen, draws, ids, reserved)| <= maxLen
    ensures |s| == maxLen ==> Inserted(config, s, maxLen, draws, ids, reserved) == s
  {
    var flags := InsertMask(draws, config.insertion);
    var fired := Fired(flags, Room(|s|, maxLen));
    FiredCount(flags, Room(|s|, maxLen), |s|);
    assert flags[..|s|] == flags && fired[..|s|] == fired;
    if |s| == maxLen {
      assert NoneSet(fired);
      SpliceNone(s, fired, ids, reserved);
    }
  }

  /**
    Insertion only adds tokens: removing the inserted ones gives back the
    input in order, and every inserted id lies in
    [reserved, reserved + config.insertionVocab).
   */
  lemma InsertedOnlyAdds(config: NoiseModelConfig, s: seq<int>, maxLen: nat,
                         draws: seq<real>, ids: seq<int>, reserved: nat)
    requires |draws| == |s| && |ids| == |s|
    requires IdsInRange(FiredFor(config, s, maxLen, draws), ids, config.insertionVocab)
    ensures Select(Inserted(config, s, maxLen, draws, ids, reserved),
                   OriginalMask(FiredFor(config, s, maxLen, draws))) == s
    ensures forall k :: 0 <= k < |Inserted(config, s, maxLen, draws, ids, reserved)| ==>
      if OriginalMask(FiredFor(config, s, maxLen, draws))[k]
      then Inserted(config, s, maxLen, draws, ids, reserved)[k] in s
      else reserved <= Inserted(config, s, maxLen, draws, ids, reserved)[k] < reserved + config.insertionVocab
  {
    var fired := FiredFor(config, s, maxLen, draws);
    SpliceDropInserted(s, fired, ids, reserved);
    forall k | 0 <= k < |Splice(s, fired, ids, reserved)|
      ensures if OriginalMask(fired)[k] then Splice(s, fired, ids, reserved)[k] in s
        else reserved <= Splice(s, fired, ids, reserved)[k] < reserved + config.insertionVocab
    {
      SpliceTokenAt(s, fired, ids, reserved, config.insertionVocab, k);
    }
  }

  /**
    Where _insertion puts each token: the original token i is shifted right by
    the insertions made at or before it, and the token inserted for position i
    sits immediately before it, with id ids[i] + reserved.
   */
  lemma InsertedPlacement(config: NoiseModelConfig, s: seq<int>, maxLen: nat,
                          draws: seq<real>, ids: seq<int>, reserved: nat, i: nat)
    requires |draws| == |s| && |ids| == |s| && i < |s|
    ensures var fired := FiredFor(config, s, maxLen, draws);
      var r := Inserted(config, s, maxLen, draws, ids, reserved);
      && i + Count(fired[..i + 1]) < |r|
      && r[i + Count(fired[..i + 1])] == s[i]
      && (fired[i] ==> i + Count(fired[..i]) < |r| && r[i + Count(fired[..i])] == ids[i] + reserved)
  {
    SpliceAt(s, FiredFor(config, s, maxLen, draws), ids, reserved, i);
  }

  // ---------------------------------------------------------------------------
  // apply_noise
  // ---------------------------------------------------------------------------

  /**
    The random draws spent on one row: np.random.rand for deletion,
    np.random.randint(0, permutation + 1) for the offsets, np.random.rand for
    the insertion decisions and np.random.randint(0, insertion_vocab) for the
    inserted ids (one slot per position; a slot is read only when an
    insertion fires there). Each sequence covers at least the row length.
   */
  datatype RowDraws = RowDraws(
    deletionDraws: seq<real>,
    offsets: seq<int>,
    insertionDraws: seq<real>,
    insertedIds: seq<int>)

  /** Draws that the random source can produce for a row of length maxLen. */
  predicate DrawsFor(config: NoiseModelConfig, maxLen: nat, d: RowDraws) {
    && |d.deletionDraws| >= maxLen
    && |d.offsets| >= maxLen
    && |d.insertionDraws| >= maxLen
    && |d.insertedIds| >= maxLen
    && (forall i :: 0 <= i < maxLen ==> 0 <= d.offsets[i] <= config.permutation)
    && (forall i :: 0 <= i < maxLen && d.insertionDraws[i] <= config.insertion ==>
          0 <= d.insertedIds[i] < config.insertionVocab)
  }

  /**
    The noised content of one row: padding stripped, then deletion,
    permutation and insertion with the capacity of the row.
   */
  function NoisedContent(config: NoiseModelConfig, row: seq<int>, d: RowDraws, reserved: nat): (c: seq<int>)
    requires DrawsFor(config, |row|, d)
    ensures |c| <= |row|
  {
    var stripped := Strip(row);
    var deleted := Deletion(config, stripped, d.deletionDraws[..|stripped|]);
    var permuted := Permutation(config, deleted, d.offsets[..|deleted|]);
    InsertedLength(config, permuted, |row|, d.insertionDraws[..|permuted|], d.insertedIds[..|permuted|], reserved);
    Inserted(config, permuted, |row|, d.insertionDraws[..|permuted|], d.insertedIds[..|permuted|], reserved)
  }

  function RowOf(a: array3<int>, b: nat): (row: seq<int>)
    reads a
    requires b < a.Length0 && a.Length2 == 1
    ensures |row| == a.Length1
  {
    seq(a.Length1, j requires 0 <= j < a.Length1 reads a => a[b, j, 0])
  }

  /** Entry k of a row holding content from index 0 and PAD after it. */
  function Cell(content: seq<int>, k: nat): int {
    if k < |content| then content[k] else PAD_ID
  }

  /** The pipeline of apply_noise on one row: strip, delete, permute, insert. */
  method NoiseRow(config: NoiseModelConfig, row: seq<int>, d: RowDraws, reserved: nat)
    returns (sentence: seq<int>)
    requires DrawsFor(config, |row|, d)
    ensures sentence == NoisedContent(config, row, d, reserved)
  {
    sentence := Strip(row);
    sentence := Deletion(config, sentence, d.deletionDraws[..|sentence|]);
    sentence := Permutation(config, sentence, d.offsets[..|sentence|]);
    sentence := Insertion(config, sentence, |row|,
                          d.insertionDraws[..|sentence|], d.insertedIds[..|sentence|], reserved);
  }

  /**
    Writes sentence into row b of the batch from index 0 and fills the rest of
    the row with PAD; no other row changes.
   */
  method WriteRow(out: array3<int>, b: nat, sentence: seq<int>)
    requires b < out.Length0 && out.Length2 == 1 && |sentence| <= out.Length1
    modifies out
    ensures forall k :: 0 <= k < out.Length1 ==> out[b, k, 0] == Cell(sentence, k)
    ensures forall b', k :: 0 <= b' < out.Length0 && b' != b && 0 <= k < out.Length1 ==>
      out[b', k, 0] == old(out[b', k, 0])
  {
    var newLength := |sentence|;
    var j := 0;
    while j < newLength
      invariant 0 <= j <= newLength
      invariant forall k :: 0 <= k < j ==> out[b, k, 0] == sentence[k]
      invariant forall b', k :: 0 <= b' < out.Length0 && b' != b && 0 <= k < out.Length1 ==>
        out[b', k, 0] == old(out[b', k, 0])
    {
      out[b, j, 0] := sentence[j];
      j := j + 1;
    }
    // Guarantee that the trailing entries are all PAD.
    while j < out.Length1
      invariant newLength <= j <= out.Length1
      invariant forall k :: 0 <= k < j ==> out[b, k, 0] == Cell(sentence, k)
      invariant forall b', k :: 0 <= b' < out.Length0 && b' != b && 0 <= k < out.Length1 ==>
        out[b', k, 0] == old(out[b', k, 0])
    {
      out[b, j, 0] := PAD_ID;
      j := j + 1;
    }
  }

  /**
    apply_noise: refuses a batch whose trailing dimension is not 1; otherwise
    returns a new batch of the same shape whose row b holds the noised
    content of input row b from index 0, followed by PAD up to the row length.
   */
  method ApplyNoise(model: NoiseModel, sentences: array3<int>, draws: seq<RowDraws>, reserved: nat)
    returns (r: Result<array3<int>>)
    requires |draws| == sentences.Length0
    requires forall b :: 0 <= b < |draws| ==> DrawsFor(model.config, sentences.Length1, draws[b])
    ensures r.Failure? <==> sentences.Length2 != 1
    ensures r.Success? ==>
      && fresh(r.value)
      && r.value.Length0 == sentences.Length0
      && r.value.Length1 == sentences.Length1
      && r.value.Length2 == 1
    ensures r.Success? ==>
      forall b, j :: 0 <= b < sentences.Length0 && 0 <= j < sentences.Length1 ==>
        r.value[b, j, 0] == Cell(NoisedContent(model.config, RowOf(sentences, b), draws[b], reserved), j)
  {
    if sentences.Length2 != 1 {
      return Failure("the trailing dimension of the batch must be 1");
    }
    var maxSequenceLength := sentences.Length1;
    ghost var contents := seq(sentences.Length0, b requires 0 <= b < sentences.Length0 reads sentences =>
      NoisedContent(model.config, RowOf(sentences, b), draws[b], reserved));
    var out := new int[sentences.Length0, maxSequenceLength, 1];
    var b := 0;
    while b < sentences.Length0
      invariant 0 <= b <= sentences.Length0
      invariant forall b', j :: 0 <= b' < b && 0 <= j < maxSequenceLength ==>
        out[b', j, 0] == Cell(contents[b'], j)
    {
      var sentence := NoiseRow(model.config, RowOf(sentences, b), draws[b], reserved);
      WriteRow(out, b, sentence);
      b := b + 1;
    }
    return Success(out);
  }

  // ---------------------------------------------------------------------------
  // Properties of the noised rows
  // ---------------------------------------------------------------------------

  /**
    The noised content of a row holds no PAD: stripping removes every PAD,
    deletion and permutation only keep or move tokens, and every inserted id
    is at least the size of the reserved block, which is at least 1.
   */
  lemma NoisedContentHasNoPad(config: NoiseModelConfig, row: seq<int>, d: RowDraws, reserved: nat)
    requires DrawsFor(config, |row|, d) && reserved >= 1
    ensures NoPad(NoisedContent(config, row, d, reserved))
  {
    var stripped := Strip(row);
    StripHasNoPad(row);
    DeletionKeepsNoPad(config, stripped, d.deletionDraws[..|stripped|]);
    var deleted := Deletion(config, stripped, d.deletionDraws[..|stripped|]);
    PermutationKeepsNoPad(config, deleted, d.offsets[..|deleted|]);
    var permuted := Permutation(config, deleted, d.offsets[..|deleted|]);
    var draws := d.insertionDraws[..|permuted|];
    var ids := d.insertedIds[..|permuted|];
    assert IdsInRange(FiredFor(config, permuted, |row|, draws), ids, config.insertionVocab);
    InsertedKeepsNoPad(config, permuted, |row|, draws, ids, reserved);
  }

  lemma DeletionKeepsNoPad(config: NoiseModelConfig, s: seq<int>, draws: seq<real>)
    requires |draws| == |s| && NoPad(s)
    ensures NoPad(Deletion(config, s, draws))
  {
    DeletionKeepsFlagged(config, s, draws);
  }

  lemma PermutationKeepsNoPad(config: NoiseModelConfig, s: seq<int>, offsets: seq<int>)
    requires |offsets| == |s| && OffsetsInRange(offsets, config.permutation) && NoPad(s)
    ensures NoPad(Permutation(config, s, offsets))
  {
    PermutationRearranges(config, s, offsets);
  }

  lemma InsertedKeepsNoPad(config: NoiseModelConfig, s: seq<int>, maxLen: nat,
                           draws: seq<real>, ids: seq<int>, reserved: nat)
    requires |draws| == |s| && |ids| == |s| && NoPad(s) && reserved >= 1
    requires IdsInRange(FiredFor(config, s, maxLen, draws), ids, config.insertionVocab)
    ensures NoPad(Inserted(config, s, maxLen, draws, ids, reserved))
  {
    InsertedOnlyAdds(config, s, maxLen, draws, ids, reserved);
  }

  /**
    Every output row is its noised content written from index 0 and followed
    by PAD up to the row length; stripping the output row gives the content
    back.
   */
  lemma NoisedRowLayout(config: NoiseModelConfig, row: seq<int>, d: RowDraws, reserved: nat)
    requires DrawsFor(config, |row|, d) && reserved >= 1
    ensures var content := NoisedContent(config, row, d, reserved);
      && |content| <= |row|
      && NoPad(content)
      && |Padded(content, |row|)| == |row|
      && (forall j :: 0 <= j < |row| ==> Padded(content, |row|)[j] == Cell(content, j))
      && Strip(Padded(content, |row|)) == content
  {
    var content := NoisedContent(config, row, d, reserved);
    NoisedContentHasNoPad(config, row, d, reserved);
    StripPadded(content, |row|);
  }

  /** Deletion with every draw above the deletion probability keeps every token. */
  lemma DeletionKeepsAll(config: NoiseModelConfig, s: seq<int>, draws: seq<real>)
    requires |draws| == |s|
    requires forall i :: 0 <= i < |s| ==> draws[i] > config.deletion
    ensures Deletion(config, s, draws) == s
  {
    SelectAll(s, KeepMask(draws, config.deletion));
  }

  /** Insertion with every draw above the insertion probability inserts nothing. */
  lemma InsertedNothing(config: NoiseModelConfig, s: seq<int>, maxLen: nat,
                        draws: seq<real>, ids: seq<int>, reserved: nat)
    requires |draws| == |s| && |ids| == |s|
    requires forall i :: 0 <= i < |s| ==> draws[i] > config.insertion
    ensures Inserted(config, s, maxLen, draws, ids, reserved) == s
  {
    var fired := FiredFor(config, s, maxLen, draws);
    assert NoneSet(InsertMask(draws, config.insertion));
    assert NoneSet(fired);
    SpliceNone(s, fired, ids, reserved);
  }

  /**
    Under a refused configuration, positive draws neither delete nor fire: the
    deletion probability is at most 0, and an insertion that fired would need
    an id below an insertion vocabulary of size 0 or an insertion probability
    above 0.
   */
  lemma RejectedDrawsAreInert(config: NoiseModelConfig, maxLen: nat, d: RowDraws, n: nat)
    requires GetNoiseModel(config).Failure?
    requires DrawsFor(config, maxLen, d) && n <= maxLen
    requires forall i :: 0 <= i < maxLen ==> d.deletionDraws[i] > 0.0 && d.insertionDraws[i] > 0.0
    ensures forall i :: 0 <= i < n ==> d.deletionDraws[..n][i] > config.deletion
    ensures forall i :: 0 <= i < n ==> d.insertionDraws[..n][i] > config.insertion
  {
    forall i | 0 <= i < n
      ensures d.insertionDraws[..n][i] > config.insertion
    {
      assert d.insertionDraws[..n][i] == d.insertionDraws[i];
    }
  }

  /**
    A configuration that get_noise_model refuses adds no noise: for strictly
    positive draws, the noised content of every row is its stripped content.
   */
  lemma RejectedConfigAddsNoNoise(config: NoiseModelConfig, row: seq<int>, d: RowDraws, reserved: nat)
    requires GetNoiseModel(config).Failure?
    requires DrawsFor(config, |row|, d)
    requires forall i :: 0 <= i < |row| ==> d.deletionDraws[i] > 0.0 && d.insertionDraws[i] > 0.0
    ensures NoisedContent(config, row, d, reserved) == Strip(row)
  {
    var stripped := Strip(row);
    var n := |stripped|;
    RejectedDrawsAreInert(config, |row|, d, n);
    DeletionKeepsAll(config, stripped, d.deletionDraws[..n]);
    PermutationZeroIsIdentity(config, stripped, d.offsets[..n]);
    InsertedNothing(config, stripped, |row|, d.insertionDraws[..n], d.insertedIds[..n], reserved);
  }
}
