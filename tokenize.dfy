/**
 * `tokenize`: normalise the text, collect the pattern matches, then run the
 * stop-word removal loop exactly as written — a `for` loop over the list that
 * calls `list.remove` (delete the FIRST equal element) on the list it iterates.
 */
module Tokenizer {
  import opened Seqs
  import opened Scanner

  /** The English stop words of `tokenize`, listed by initial letter. */
  const StopWordList: seq<string> :=
    ["a", "about", "above", "after", "again", "against", "all", "am", "an", "and", "any", "are",
       "aren't", "as", "at"]
    + ["be", "because", "been", "before", "being", "below", "between", "both", "but", "by"]
    + ["can't", "cannot", "could", "couldn't"]
    + ["did", "didn't", "do", "does", "doesn't", "doing", "don't", "down", "during"]
    + ["each"]
    + ["few", "for", "from", "further"]
    + ["had", "hadn't", "has", "hasn't", "have", "haven't", "having", "he", "he'd", "he'll",
       "he's", "her", "here", "here's", "hers", "herself", "him", "himself", "his", "how", "how's"]
    + ["i", "i'd", "i'll", "i'm", "i've", "if", "in", "into", "is", "isn't", "it", "it's", "its",
       "itself"]
    + ["let's"]
    + ["me", "more", "most", "mustn't", "my", "myself"]
    + ["no", "nor", "not"]
    + ["of", "off", "on", "once", "only", "or", "other", "ought", "our", "ours", "ourselves",
       "out", "over", "own"]
    + ["same", "shan't", "she", "she'd", "she'll", "she's", "should", "shouldn't", "so", "some",
       "such"]
    + ["than", "that", "that's", "the", "their", "theirs", "them", "themselves", "then", "there",
       "there's", "these", "they", "they'd", "they'll", "they're", "they've", "this", "those",
       "through", "to", "too"]
    + ["under", "until", "up"]
    + ["very"]
    + ["was", "wasn't", "we", "we'd", "we'll", "we're", "we've", "were", "weren't", "what",
       "what's", "when", "when's", "where", "where's", "which", "while", "who", "who's", "whom",
       "why", "why's", "with", "won't", "would", "wouldn't"]
    + ["you", "you'd", "you'll", "you're", "you've", "your", "yours", "yourself", "yourselves"]

  /** The stop-word set that `tokenize` tests each match against. */
  const StopWords: set<string> := set w | w in StopWordList

  /** The word test of the clean filter: keep what is not a stop word. */
  function KeepFn(stop: set<string>): string -> bool {
    w => w !in stop
  }

  /** The clean stop-word filter: every non-stop word, in order. */
  function NonStop(stop: set<string>, words: seq<string>): seq<string> {
    Filter(words, KeepFn(stop))
  }
  /** Index of the first occurrence of `x`. */
  function FirstIndex(s: seq<string>, x: string): (k: nat)
    requires x in s
    ensures k < |s| && s[k] == x && x !in s[..k]
  {
    if s[0] == x then 0
    else
      assert s == [s[0]] + s[1..];
      1 + FirstIndex(s[1..], x)
  }

  /** `list.remove(x)`: delete the first element equal to `x`. */
  function RemoveFirst(s: seq<string>, x: string): (r: seq<string>)
    requires x in s
    ensures r == s[..FirstIndex(s, x)] + s[FirstIndex(s, x) + 1..]
  {
    if s[0] == x then s[1..]
    else
      assert s == [s[0]] + s[1..];
      [s[0]] + RemoveFirst(s[1..], x)
  }

  /**
   * The stop-word loop continued from iterator position `i`: the list iterator
   * reads `words[i]` and advances, whatever the loop body did to `words`.
   */
  function SweepFrom(stop: set<string>, words: seq<string>, i: nat): seq<string>
    decreases |words| - i
  {
    if i >= |words| then words
    else if words[i] in stop then SweepFrom(stop, RemoveFirst(words, words[i]), i + 1)
    else SweepFrom(stop, words, i + 1)
  }

  /** The result of the whole stop-word loop on the matched words. */
  function StopWordLoop(stop: set<string>, words: seq<string>): seq<string> {
    SweepFrom(stop, words, 0)
  }

  /** What `tokenize` returns for `text`. */
  function Tokens(text: string): seq<string> {
    StopWordLoop(StopWords, FindAll(Normalize(text)))
  }

  lemma {:induction false} RemoveStopWordKeepsRest(stop: set<string>, s: seq<string>, x: string)
    requires x in s && x in stop
    ensures Subseq(RemoveFirst(s, x), s)
    ensures NonStop(stop, RemoveFirst(s, x)) == NonStop(stop, s)
    decreases |s|
  {
    assert s == [s[0]] + s[1..];
    if s[0] == x {
      SubseqRefl(s[1..]);
      SubseqCons(s[1..], s[1..], s[0]);
    } else {
      var r := RemoveFirst(s[1..], x);
      RemoveStopWordKeepsRest(stop, s[1..], x);
      SubseqBothCons(r, s[1..], s[0]);
      NonStopCons(stop, s[0], r);
      NonStopCons(stop, s[0], s[1..]);
    }
  }

  lemma NonStopCons(stop: set<string>, x: string, s: seq<string>)
    ensures NonStop(stop, [x] + s) == if x in stop then NonStop(stop, s) else [x] + NonStop(stop, s)
  {
    assert ([x] + s)[0] == x && ([x] + s)[1..] == s;
  }

  lemma {:induction false} SweepFromKeepsRest(stop: set<string>, words: seq<string>, i: nat)
    ensures Subseq(SweepFrom(stop, words, i), words)
    ensures NonStop(stop, SweepFrom(stop, words, i)) == NonStop(stop, words)
    decreases |words| - i
  {
    if i >= |words| {
      SubseqRefl(words);
    } else if words[i] in stop {
      var r := RemoveFirst(words, words[i]);
      SweepFromKeepsRest(stop, r, i + 1);
      RemoveStopWordKeepsRest(stop, words, words[i]);
      SubseqTrans(SweepFrom(stop, r, i + 1), r, words);
    } else {
      SweepFromKeepsRest(stop, words, i + 1);
    }
  }

  /**
   * The loop deletes only stop words: its result is a subsequence of the matched
   * words, every non-stop word survives with its multiplicity and in its original
   * relative order, and the result is never longer.
   */
  lemma StopWordLoopDeletesOnlyStopWords(stop: set<string>, words: seq<string>)
    ensures Subseq(StopWordLoop(stop, words), words)
    ensures |StopWordLoop(stop, words)| <= |words|
    ensures NonStop(stop, StopWordLoop(stop, words)) == NonStop(stop, words)
    ensures forall x :: x !in stop ==> multiset(StopWordLoop(stop, words))[x] == multiset(words)[x]
  {
    var r := StopWordLoop(stop, words);
    SweepFromKeepsRest(stop, words, 0);
    SubseqLength(r, words);
    forall x | x !in stop
      ensures multiset(r)[x] == multiset(words)[x]
    {
      FilterCount(r, KeepFn(stop), x);
      FilterCount(words, KeepFn(stop), x);
    }
  }

  lemma {:induction false} SweepFromWithoutStopWords(stop: set<string>, words: seq<string>, i: nat)
    requires forall k :: 0 <= k < |words| ==> words[k] !in stop
    ensures SweepFrom(stop, words, i) == words
    decreases |words| - i
  {
    if i < |words| {
      SweepFromWithoutStopWords(stop, words, i + 1);
    }
  }

  /** If no matched word is a stop word, the loop returns the matched list unchanged. */
  lemma StopWordLoopWithoutStopWords(stop: set<string>, words: seq<string>)
    requires forall k :: 0 <= k < |words| ==> words[k] !in stop
    ensures StopWordLoop(stop, words) == words
  {
    SweepFromWithoutStopWords(stop, words, 0);
  }

  /** No two neighbouring words are both stop words. */
  predicate NoAdjacentStopWords(stop: set<string>, s: seq<string>) {
    forall k :: 0 <= k < |s| - 1 ==> !(s[k] in stop && s[k + 1] in stop)
  }

  lemma {:induction false} RemoveFirstPastPrefix(kept: seq<string>, s: seq<string>)
    requires s != [] && s[0] !in kept
    ensures RemoveFirst(kept + s, s[0]) == kept + s[1..]
    decreases |kept|
  {
    if kept == [] {
      assert kept + s == s;
    } else {
      assert (kept + s)[0] == kept[0];
      assert (kept + s)[1..] == kept[1..] + s;
      RemoveFirstPastPrefix(kept[1..], s);
      assert [kept[0]] + (kept[1..] + s[1..]) == kept + s[1..];
    }
  }

  /**
   * The loop started behind a prefix `kept` free of stop words, on a rest `s` with
   * no two neighbouring stop words, keeps the prefix and filters the rest.
   */
  lemma {:induction false} SweepFromClean(stop: set<string>, kept: seq<string>, s: seq<string>)
    requires forall k :: 0 <= k < |kept| ==> kept[k] !in stop
    requires NoAdjacentStopWords(stop, s)
    ensures SweepFrom(stop, kept + s, |kept|) == kept + NonStop(stop, s)
    decreases |s|
  {
    if s == [] {
      assert kept + s == kept + [] == kept;
    } else if s[0] !in stop {
      SweepFromCleanKeep(stop, kept, s);
    } else {
      SweepFromCleanStop(stop, kept, s);
    }
  }

  lemma {:induction false} SweepFromCleanKeep(stop: set<string>, kept: seq<string>, s: seq<string>)
    requires forall k :: 0 <= k < |kept| ==> kept[k] !in stop
    requires NoAdjacentStopWords(stop, s)
    requires s != [] && s[0] !in stop
    ensures SweepFrom(stop, kept + s, |kept|) == kept + NonStop(stop, s)
    decreases |s|, 0
  {
    var t := kept + s;
    var kept' := kept + [s[0]];
    assert t[|kept|] == s[0];
    assert SweepFrom(stop, t, |kept|) == SweepFrom(stop, t, |kept'|);
    assert kept' + s[1..] == t;
    SweepFromClean(stop, kept', s[1..]);
    assert s == [s[0]] + s[1..];
    NonStopCons(stop, s[0], s[1..]);
  }

  lemma {:induction false} SweepFromCleanStop(stop: set<string>, kept: seq<string>, s: seq<string>)
    requires forall k :: 0 <= k < |kept| ==> kept[k] !in stop
    requires NoAdjacentStopWords(stop, s)
    requires s != [] && s[0] in stop
    ensures SweepFrom(stop, kept + s, |kept|) == kept + NonStop(stop, s)
    decreases |s|, 1
  {
    var t := kept + s;
    assert t[|kept|] == s[0];
    assert s[0] !in kept;
    RemoveFirstPastPrefix(kept, s);
    var u := s[1..];
    assert SweepFrom(stop, t, |kept|) == SweepFrom(stop, kept + u, |kept| + 1);
    assert s == [s[0]] + u;
    NonStopCons(stop, s[0], u);
    if u == [] {
      assert kept + u == kept;
    } else {
      assert u[0] == s[1];
      assert NoAdjacentStopWords(stop, u) by {
        assert forall k :: 0 <= k < |u| ==> u[k] == s[k + 1];
      }
      SweepFromCleanSkipped(stop, kept, u);
    }
  }

  /** The iterator has passed the word that slid into the removed stop word's place. */
  lemma {:induction false} SweepFromCleanSkipped(stop: set<string>, kept: seq<string>, u: seq<string>)
    requires forall k :: 0 <= k < |kept| ==> kept[k] !in stop
    requires NoAdjacentStopWords(stop, u)
    requires u != [] && u[0] !in stop
    ensures SweepFrom(stop, kept + u, |kept| + 1) == kept + NonStop(stop, u)
    decreases |u|, 0
  {
    var kept' := kept + [u[0]];
    assert kept' + u[1..] == kept + u;
    assert NoAdjacentStopWords(stop, u[1..]) by {
      assert forall k :: 0 <= k < |u[1..]| ==> u[1..][k] == u[k + 1];
    }
    SweepFromClean(stop, kept', u[1..]);
    assert u == [u[0]] + u[1..];
    NonStopCons(stop, u[0], u[1..]);
  }

  /**
   * The loop and the clean filter agree whenever no two stop words are
   * neighbours in the matched list.
   */
  lemma StopWordLoopIsFilterWithoutAdjacentStopWords(stop: set<string>, words: seq<string>)
    requires NoAdjacentStopWords(stop, words)
    ensures StopWordLoop(stop, words) == NonStop(stop, words)
  {
    SweepFromClean(stop, [], words);
    assert [] + words == words;
  }

  /**
   * Two neighbouring stop words: after the first is removed, the second slides
   * into the position the iterator has already passed, so it is kept, although
   * the clean filter would drop both.
   */
  lemma StopWordLoopSkipsSecondOfPair(stop: set<string>, x: string, y: string)
    requires x in stop && y in stop && x != y
    ensures StopWordLoop(stop, [x, y]) == [y]
    ensures NonStop(stop, [x, y]) == []
  {
    var w := [x, y];
    assert RemoveFirst(w, w[0]) == [y];
    assert SweepFrom(stop, [y], 1) == [y];
    NonStopCons(stop, y, []);
    NonStopCons(stop, x, [y]);
    assert [x] + [y] == w && [y] + [] == [y];
  }

  /** "the a": the loop keeps the stop word "a". */
  lemma StopWordLoopSkipsAdjacentStopWord()
    ensures StopWordLoop(StopWords, ["the", "a"]) == ["a"]
    ensures "a" in StopWords && NonStop(StopWords, ["the", "a"]) == []
  {
    assert StopWordList[0] == "a";
    assert StopWordList[116] == "the";
    StopWordLoopSkipsSecondOfPair(StopWords, "the", "a");
  }

  /**
   * `tokenize(text)`: the matches of the normalised text, then the in-place
   * stop-word loop, then `result.extend(words)` into an empty list.
   */
  method Tokenize(text: string) returns (result: seq<string>)
    ensures result == Tokens(text)
    ensures forall w :: w in result ==> WellFormedToken(w) && NoUpper(w)
    ensures Subseq(result, FindAll(Normalize(text)))
    ensures |result| <= |FindAll(Normalize(text))|
    ensures NonStop(StopWords, result) == NonStop(StopWords, FindAll(Normalize(text)))
    ensures (forall k :: 0 <= k < |FindAll(Normalize(text))| ==> FindAll(Normalize(text))[k] !in StopWords)
            ==> result == FindAll(Normalize(text))
  {
    var t := Normalize(text);
    var words := FindAll(t);
    ghost var matched := words;
    var i := 0;
    while i < |words|
      invariant SweepFrom(StopWords, words, i) == StopWordLoop(StopWords, matched)
      decreases |words| + 1 - i
    {
      var word := words[i];
      i := i + 1;
      if word in StopWords {
        words := RemoveFirst(words, word);
      }
    }
    result := [];
    result := result + words;
    assert result == StopWordLoop(StopWords, matched);
    StopWordLoopDeletesOnlyStopWords(StopWords, matched);
    FindAllWellFormed(text);
    forall w | w in result
      ensures WellFormedToken(w) && NoUpper(w)
    {
      SubseqIn(result, matched, w);
    }
    if forall k :: 0 <= k < |matched| ==> matched[k] !in StopWords {
      StopWordLoopWithoutStopWords(StopWords, matched);
    }
  }
}
