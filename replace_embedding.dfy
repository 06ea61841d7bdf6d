/**
  The vocabulary and embedding-table transformation of
  sockeye/replace_embedding.py: pretrained word vectors replace the source
  embedding of a trained model, behind the three special tokens the toolkit
  reserves.

  Embedding rows are of a generic type: nothing is computed on their entries.
 */
module ReplaceEmbedding {
  import opened Wrappers
  import opened Seqs

  /** The special tokens given the ids 0, 1 and 2, in that order. */
  const SPECIAL_TOKENS: seq<string> := ["<pad>", "<unk>", "<s>"]

  /** The parameter that convert_weight reads and replace_embeddings overwrites. */
  const SOURCE_EMBED_WEIGHT: string := "source_embed_weight"

  /** Index i holds the last occurrence of its word in words. */
  predicate IsLast<T(==)>(words: seq<T>, i: nat)
    requires i < |words|
  {
    forall j :: i < j < |words| ==> words[j] != words[i]
  }

  /**
    {word: id for id, word in enumerate(words)}: each word maps to a position
    where it occurs; a later occurrence overwrites an earlier one.
   */
  function Enumerate<T(==)>(words: seq<T>): (m: map<T, nat>)
    ensures m.Keys == Elems(words)
    ensures forall w :: w in m ==> m[w] < |words| && words[m[w]] == w
  {
    if words == [] then map[]
    else
      var n := |words| - 1;
      assert words == words[..n] + [words[n]];
      assert Elems(words) == Elems(words[..n]) + {words[n]};
      Enumerate(words[..n])[words[n] := n]
  }

  /** Dropping a last word that differs from word i does not change whether i is last. */
  lemma IsLastDropLast<T>(words: seq<T>, i: nat)
    requires i < |words| - 1 && words[|words| - 1] != words[i]
    ensures IsLast(words, i) <==> IsLast(words[..|words| - 1], i)
  {
    var prev := words[..|words| - 1];
    if IsLast(prev, i) {
      forall j | i < j < |words|
        ensures words[j] != words[i]
      {
        if j < |prev| {
          assert prev[j] == words[j];
        }
      }
    }
    if IsLast(words, i) {
      forall j | i < j < |prev|
        ensures prev[j] != prev[i]
      {
        assert prev[j] == words[j];
      }
    }
  }

  /** Each word receives the position of its last occurrence. */
  lemma {:induction false} EnumerateLastOccurrence<T>(words: seq<T>, i: nat)
    requires i < |words|
    ensures words[i] in Enumerate(words)
    ensures Enumerate(words)[words[i]] == i <==> IsLast(words, i)
  {
    var n := |words| - 1;
    var prev := words[..n];
    assert Enumerate(words) == Enumerate(prev)[words[n] := n];
    if i < n {
      EnumerateLastOccurrence(prev, i);
      assert prev[i] == words[i];
      if words[i] == words[n] {
        assert !IsLast(words, i);
      } else {
        IsLastDropLast(words, i);
      }
    }
  }

  /** The map has at most one entry per word of the list. */
  lemma {:induction false} EnumerateSize<T>(words: seq<T>)
    ensures |Enumerate(words)| <= |words|
  {
    if words != [] {
      var n := |words| - 1;
      EnumerateSize(words[..n]);
      var m := Enumerate(words[..n]);
      assert Enumerate(words).Keys == m.Keys + {words[n]};
      assert |m.Keys + {words[n]}| <= |m.Keys| + 1;
    }
  }

  /** A last occurrence stays last when a prefix is put in front of the list. */
  lemma IsLastShift<T>(pre: seq<T>, words: seq<T>, i: nat)
    requires i < |words|
    ensures IsLast(pre + words, |pre| + i) <==> IsLast(words, i)
  {
    var all := pre + words;
    assert all[|pre| + i] == words[i];
    if IsLast(words, i) {
      forall j | |pre| + i < j < |all|
        ensures all[j] != all[|pre| + i]
      {
        assert all[j] == words[j - |pre|];
      }
    }
    if IsLast(all, |pre| + i) {
      forall j | i < j < |words|
        ensures words[j] != words[i]
      {
        assert all[|pre| + j] == words[j];
      }
    }
  }

  /** convert_vocab: the special tokens followed by the vocabulary, numbered from 0. */
  function ConvertVocab(vocab: seq<string>): (m: map<string, nat>)
    ensures m.Keys == Elems(SPECIAL_TOKENS) + Elems(vocab)
    ensures forall w :: w in m ==> m[w] < |vocab| + 3
  {
    assert Elems(SPECIAL_TOKENS + vocab) == Elems(SPECIAL_TOKENS) + Elems(vocab);
    Enumerate(SPECIAL_TOKENS + vocab)
  }

  /** The vocabulary map holds at most |vocab| + 3 entries. */
  lemma ConvertVocabSize(vocab: seq<string>)
    ensures |ConvertVocab(vocab)| <= |vocab| + 3
  {
    EnumerateSize(SPECIAL_TOKENS + vocab);
  }

  /**
    A vocabulary word at index i receives id i + 3 exactly when index i is its
    last occurrence in the vocabulary.
   */
  lemma ConvertVocabWord(vocab: seq<string>, i: nat)
    requires i < |vocab|
    ensures ConvertVocab(vocab)[vocab[i]] == i + 3 <==> IsLast(vocab, i)
  {
    var words := SPECIAL_TOKENS + vocab;
    assert words[|SPECIAL_TOKENS| + i] == vocab[i];
    EnumerateLastOccurrence(words, |SPECIAL_TOKENS| + i);
    IsLastShift(SPECIAL_TOKENS, vocab, i);
  }

  /**
    A special token that the vocabulary does not repeat keeps its reserved id:
    <pad> is 0, <unk> is 1 and <s> is 2.
   */
  lemma ConvertVocabSpecial(vocab: seq<string>, t: nat)
    requires t < 3 && SPECIAL_TOKENS[t] !in vocab
    ensures ConvertVocab(vocab)[SPECIAL_TOKENS[t]] == t
  {
    var words := SPECIAL_TOKENS + vocab;
    EnumerateLastOccurrence(words, t);
    forall j | t < j < |words|
      ensures words[j] != words[t]
    {
      if j >= 3 {
        assert words[j] == vocab[j - 3];
      }
    }
  }

  /** The first min(3, |rows|) rows, as rows[:3] in numpy. */
  function Head3<T>(rows: seq<T>): (h: seq<T>)
    ensures |h| == if |rows| < 3 then |rows| else 3
    ensures forall k :: 0 <= k < |h| ==> h[k] == rows[k]
  {
    if |rows| < 3 then rows else rows[..3]
  }

  /**
    convert_weight: the first three rows of the current source embedding
    followed by the new rows; fails when the parameters hold no source
    embedding.
   */
  function ConvertWeight<T>(weight: seq<T>, orgParams: map<string, seq<T>>): (r: Result<seq<T>>)
    ensures r.Failure? <==> SOURCE_EMBED_WEIGHT !in orgParams
    ensures r.Success? ==>
      var h := Head3(orgParams[SOURCE_EMBED_WEIGHT]);
      && |r.value| == |h| + |weight|
      && r.value[..|h|] == h
      && r.value[|h|..] == weight
  {
    if SOURCE_EMBED_WEIGHT !in orgParams then Failure("KeyError: source_embed_weight")
    else Success(Head3(orgParams[SOURCE_EMBED_WEIGHT]) + weight)
  }

  /**
    With a source embedding of at least three rows, the new table has
    3 + |weight| rows, begins with the three special-token rows of the old one
    and continues with weight in order.
   */
  lemma ConvertWeightRows<T>(weight: seq<T>, orgParams: map<string, seq<T>>)
    requires SOURCE_EMBED_WEIGHT in orgParams && |orgParams[SOURCE_EMBED_WEIGHT]| >= 3
    ensures ConvertWeight(weight, orgParams).Success?
    ensures var r := ConvertWeight(weight, orgParams).value;
      && |r| == 3 + |weight|
      && (forall k :: 0 <= k < 3 ==> r[k] == orgParams[SOURCE_EMBED_WEIGHT][k])
      && (forall k :: 0 <= k < |weight| ==> r[3 + k] == weight[k])
  {
    var r := ConvertWeight(weight, orgParams).value;
    forall k | 0 <= k < |weight|
      ensures r[3 + k] == weight[k]
    {
      assert r[3..][k] == r[3 + k];
    }
  }

  /** A loaded word looked up through the new vocabulary finds the vector of its last occurrence. */
  lemma LookupWord<T>(vocab: seq<string>, weight: seq<T>, orgParams: map<string, seq<T>>, i: nat)
    requires |weight| == |vocab| && i < |vocab| && IsLast(vocab, i)
    requires SOURCE_EMBED_WEIGHT in orgParams && |orgParams[SOURCE_EMBED_WEIGHT]| >= 3
    ensures ConvertVocab(vocab)[vocab[i]] < |ConvertWeight(weight, orgParams).value|
    ensures ConvertWeight(weight, orgParams).value[ConvertVocab(vocab)[vocab[i]]] == weight[i]
  {
    ConvertVocabWord(vocab, i);
    ConvertWeightRows(weight, orgParams);
  }

  /** A special token the vocabulary does not repeat finds its old row. */
  lemma LookupSpecial<T>(vocab: seq<string>, weight: seq<T>, orgParams: map<string, seq<T>>, t: nat)
    requires t < 3 && SPECIAL_TOKENS[t] !in vocab
    requires SOURCE_EMBED_WEIGHT in orgParams && |orgParams[SOURCE_EMBED_WEIGHT]| >= 3
    ensures ConvertVocab(vocab)[SPECIAL_TOKENS[t]] < |ConvertWeight(weight, orgParams).value|
    ensures ConvertWeight(weight, orgParams).value[ConvertVocab(vocab)[SPECIAL_TOKENS[t]]]
         == orgParams[SOURCE_EMBED_WEIGHT][t]
  {
    ConvertVocabSpecial(vocab, t);
    ConvertWeightRows(weight, orgParams);
  }

  /**
    The new vocabulary and the new table agree: looking a loaded word up
    through the vocabulary gives the vector loaded with its last occurrence,
    and a special token that the vocabulary does not repeat still gets its old
    row.
   */
  lemma LookupAgrees<T>(vocab: seq<string>, weight: seq<T>, orgParams: map<string, seq<T>>)
    requires |weight| == |vocab|
    requires SOURCE_EMBED_WEIGHT in orgParams && |orgParams[SOURCE_EMBED_WEIGHT]| >= 3
    ensures forall i :: 0 <= i < |vocab| && IsLast(vocab, i) ==>
      && ConvertVocab(vocab)[vocab[i]] < |ConvertWeight(weight, orgParams).value|
      && ConvertWeight(weight, orgParams).value[ConvertVocab(vocab)[vocab[i]]] == weight[i]
    ensures forall t :: 0 <= t < 3 && SPECIAL_TOKENS[t] !in vocab ==>
      && ConvertVocab(vocab)[SPECIAL_TOKENS[t]] < |ConvertWeight(weight, orgParams).value|
      && ConvertWeight(weight, orgParams).value[ConvertVocab(vocab)[SPECIAL_TOKENS[t]]]
         == orgParams[SOURCE_EMBED_WEIGHT][t]
  {
    forall i | 0 <= i < |vocab| && IsLast(vocab, i)
      ensures ConvertVocab(vocab)[vocab[i]] < |ConvertWeight(weight, orgParams).value|
      ensures ConvertWeight(weight, orgParams).value[ConvertVocab(vocab)[vocab[i]]] == weight[i]
    {
      LookupWord(vocab, weight, orgParams, i);
    }
    forall t | 0 <= t < 3 && SPECIAL_TOKENS[t] !in vocab
      ensures ConvertVocab(vocab)[SPECIAL_TOKENS[t]] < |ConvertWeight(weight, orgParams).value|
      ensures ConvertWeight(weight, orgParams).value[ConvertVocab(vocab)[SPECIAL_TOKENS[t]]]
           == orgParams[SOURCE_EMBED_WEIGHT][t]
    {
      LookupSpecial(vocab, weight, orgParams, t);
    }
  }

  /**
    replace_embeddings, lines 63-65: the converted table replaces the source
    embedding; every other parameter is unchanged and no key is added.
   */
  function ReplaceSourceEmbedding<T>(params: map<string, seq<T>>, weight: seq<T>): (r: Result<map<string, seq<T>>>)
    ensures r.Failure? <==> SOURCE_EMBED_WEIGHT !in params
    ensures r.Success? ==>
      && r.value.Keys == params.Keys
      && r.value[SOURCE_EMBED_WEIGHT] == ConvertWeight(weight, params).value
      && forall k :: k in params && k != SOURCE_EMBED_WEIGHT ==> r.value[k] == params[k]
  {
    match ConvertWeight(weight, params)
    case Failure(e) => Failure(e)
    case Success(newWeight) => Success(params[SOURCE_EMBED_WEIGHT := newWeight])
  }
}
