/** `compute_word_frequencies`: a `defaultdict(int)` tally of the tokens, built in a loop. */
module Frequencies {

  /** The sum of the counts in a table. */
  ghost function Total(m: map<string, nat>): nat
    decreases |m|
  {
    if m.Keys == {} then 0
    else
      var k :| k in m.Keys;
      m[k] + Total(m - {k})
  }

  lemma {:induction false} TotalRemove(m: map<string, nat>, k: string)
    requires k in m
    ensures Total(m) == m[k] + Total(m - {k})
    decreases |m|
  {
    var j :| j in m.Keys && Total(m) == m[j] + Total(m - {j});
    if j != k {
      var mj, mk := m - {j}, m - {k};
      assert k in mj && mj[k] == m[k];
      assert j in mk && mk[j] == m[j];
      TotalRemove(mj, k);
      TotalRemove(mk, j);
      assert mj - {k} == mk - {j};
    }
  }

  /** Setting one entry changes the total by the difference. */
  lemma TotalUpdate(m: map<string, nat>, k: string, v: nat)
    ensures Total(m[k := v]) + (if k in m then m[k] else 0) == Total(m) + v
  {
    var m' := m[k := v];
    TotalRemove(m', k);
    if k in m {
      TotalRemove(m, k);
      assert m' - {k} == m - {k};
    } else {
      assert m' - {k} == m;
    }
  }

  /** The table the tally loop holds after reading `tokens` from left to right. */
  function Tally(tokens: seq<string>): map<string, nat>
    decreases |tokens|
  {
    if tokens == [] then map[]
    else
      var m := Tally(tokens[..|tokens| - 1]);
      var token := tokens[|tokens| - 1];
      m[token := (if token in m then m[token] else 0) + 1]
  }

  /** `freq` is the frequency table of `tokens`. */
  ghost predicate IsFrequencyTable(freq: map<string, nat>, tokens: seq<string>) {
    && (forall w :: w in freq <==> w in tokens)
    && (forall w :: w in freq ==> freq[w] == multiset(tokens)[w] && freq[w] >= 1)
    && Total(freq) == |tokens|
  }

  /** The tally's keys are exactly the distinct tokens. */
  lemma {:induction false} TallyKeys(tokens: seq<string>)
    ensures forall w :: w in Tally(tokens) <==> w in tokens
    decreases |tokens|
  {
    if tokens != [] {
      var front := tokens[..|tokens| - 1];
      TallyKeys(front);
      assert tokens == front + [tokens[|tokens| - 1]];
    }
  }

  /** Each count is that token's number of occurrences, so at least 1. */
  lemma {:induction false} TallyCounts(tokens: seq<string>)
    ensures forall w :: w in Tally(tokens) ==> Tally(tokens)[w] == multiset(tokens)[w] >= 1
    decreases |tokens|
  {
    if tokens != [] {
      var front := tokens[..|tokens| - 1];
      var token := tokens[|tokens| - 1];
      TallyCounts(front);
      TallyKeys(front);
      assert tokens == front + [token];
      assert multiset(tokens) == multiset(front) + multiset{token};
    }
  }

  /** The counts add up to the number of tokens. */
  lemma {:induction false} TallyTotal(tokens: seq<string>)
    ensures Total(Tally(tokens)) == |tokens|
    decreases |tokens|
  {
    if tokens != [] {
      var front := tokens[..|tokens| - 1];
      var token := tokens[|tokens| - 1];
      var m := Tally(front);
      TallyTotal(front);
      TotalUpdate(m, token, (if token in m then m[token] else 0) + 1);
    }
  }

  lemma TallyIsFrequencyTable(tokens: seq<string>)
    ensures IsFrequencyTable(Tally(tokens), tokens)
  {
    TallyKeys(tokens);
    TallyCounts(tokens);
    TallyTotal(tokens);
  }

  /** `compute_word_frequencies(tokens)` */
  method ComputeWordFrequencies(tokens: seq<string>) returns (freq: map<string, nat>)
    ensures freq == Tally(tokens)
    ensures IsFrequencyTable(freq, tokens)
  {
    freq := map[];
    var i := 0;
    while i < |tokens|
      invariant i <= |tokens|
      invariant freq == Tally(tokens[..i])
    {
      var token := tokens[i];
      assert tokens[..i + 1][..i] == tokens[..i];
      freq := freq[token := (if token in freq then freq[token] else 0) + 1];
      i := i + 1;
    }
    assert tokens[..i] == tokens;
    TallyIsFrequencyTable(tokens);
  }
}
