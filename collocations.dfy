/**
 * `getCollocations` and its `applyFilter`: the lemmatised token stream of
 * the whole corpus is cut into contiguous windows of n = 2, 3 and 4 tokens;
 * a window stays a candidate when it occurs at least twice and none of its
 * words is rejected (shorter than 3 characters, a stop word, or not
 * alphabetic); at most 100 candidates are reported per n, best first.
 * The scoring that decides "best" is not modelled: the ranking of the
 * candidates is a parameter.
 */
module Collocations {
  import opened Sequences

  /** A window of consecutive tokens: a bigram, trigram or quadgram. */
  type Ngram = seq<string>

  /** How many times w occurs as a window of tokens (its entry in `ngram_fd`). */
  function Frequency(tokens: seq<string>, w: Ngram): nat
    requires w != []
    decreases |tokens|
  {
    if |tokens| < |w| then 0
    else (if tokens[..|w|] == w then 1 else 0) + Frequency(tokens[1..], w)
  }

  /** A window is counted at all exactly when it occurs somewhere. */
  lemma {:induction false} FrequencyPositive(tokens: seq<string>, w: Ngram)
    requires w != []
    ensures Frequency(tokens, w) > 0 <==> exists i: nat :: OccursAt(tokens, w, i)
    decreases |tokens|
  {
    if |tokens| < |w| {
      forall i: nat ensures !OccursAt(tokens, w, i) {
      }
    } else {
      FrequencyPositive(tokens[1..], w);
      if tokens[..|w|] == w {
        assert OccursAt(tokens, w, 0);
      } else if exists i: nat :: OccursAt(tokens[1..], w, i) {
        var i: nat :| OccursAt(tokens[1..], w, i);
        assert tokens[1..][i..i + |w|] == tokens[i + 1..i + 1 + |w|];
        assert OccursAt(tokens, w, i + 1);
      } else {
        forall i: nat | OccursAt(tokens, w, i) ensures false {
          if i > 0 {
            assert tokens[1..][i - 1..i - 1 + |w|] == tokens[i..i + |w|];
            assert OccursAt(tokens[1..], w, i - 1);
          }
        }
      }
    }
  }

  /** Putting tokens in front never loses an occurrence. */
  lemma {:induction false} FrequencyPrepend(c: seq<string>, b: seq<string>, w: Ngram)
    requires w != []
    ensures Frequency(c + b, w) >= Frequency(b, w)
    decreases |c|
  {
    if c != [] {
      assert (c + b)[1..] == c[1..] + b;
      FrequencyPrepend(c[1..], b, w);
    } else {
      assert c + b == b;
    }
  }

  /** Occurrences inside two stretches of text add up in their concatenation. */
  lemma {:induction false} FrequencyAppend(a: seq<string>, b: seq<string>, w: Ngram)
    requires w != []
    ensures Frequency(a + b, w) >= Frequency(a, w) + Frequency(b, w)
    decreases |a|
  {
    if |a| < |w| {
      FrequencyPrepend(a, b, w);
    } else {
      assert (a + b)[..|w|] == a[..|w|];
      assert (a + b)[1..] == a[1..] + b;
      FrequencyAppend(a[1..], b, w);
    }
  }

  /** The window of n tokens starting at token i. */
  function WindowAt(tokens: seq<string>, n: nat, i: nat): Ngram
    requires i + n <= |tokens|
  {
    tokens[i..i + n]
  }

  /** The distinct windows of n tokens (the keys of `ngram_fd`). */
  function WindowSet(tokens: seq<string>, n: nat): set<Ngram>
  {
    set i: nat | i + n <= |tokens| :: WindowAt(tokens, n, i)
  }

  /** `ngram_fd` as built by `from_words(text, n)`: every window with its count. */
  function NgramFd(tokens: seq<string>, n: nat): map<Ngram, nat>
    requires n >= 1
  {
    map w | w in WindowSet(tokens, n) :: Frequency(tokens, w)
  }

  /** Windows are exactly the sequences of n tokens that occur. */
  lemma {:induction false} NgramFdKeys(tokens: seq<string>, n: nat, w: Ngram)
    requires n >= 1
    ensures w in NgramFd(tokens, n) <==> |w| == n && Frequency(tokens, w) > 0
  {
    if |w| == n {
      FrequencyPositive(tokens, w);
      if w in WindowSet(tokens, n) {
        var i: nat :| i + n <= |tokens| && WindowAt(tokens, n, i) == w;
        assert OccursAt(tokens, w, i);
      }
      if exists i: nat :: OccursAt(tokens, w, i) {
        var i: nat :| OccursAt(tokens, w, i);
        assert WindowAt(tokens, n, i) in WindowSet(tokens, n);
      }
    }
  }

  /** ASCII letters: what `str.isalpha` accepts in this model. */
  predicate IsLetter(c: char)
  {
    'a' <= c <= 'z' || 'A' <= c <= 'Z'
  }

  /** `w.isalpha()`: non-empty and letters only. */
  predicate IsAlpha(w: string)
  {
    |w| >= 1 && forall i :: 0 <= i < |w| ==> IsLetter(w[i])
  }

  /** `ignoredWords`: corpus-specific words excluded on top of the English stop words. */
  const IgnoredWords: set<string> :=
    {"draw", "drawing", "york", "rockefeller", "president", "correspondent",
     "united", "urban", "policy", "international"}

  /** `stopWords`: the English stop-word list (a parameter here) and the ignored words. */
  function StopWords(english: set<string>): set<string>
  {
    english + IgnoredWords
  }

  /** The `condition` of `applyFilter`. */
  predicate Rejected(w: string, stop: set<string>)
  {
    |w| < 3 || w in stop || !IsAlpha(w)
  }

  /** No word of the window is rejected. */
  predicate NoneRejected(w: Ngram, stop: set<string>)
  {
    forall j :: 0 <= j < |w| ==> !Rejected(w[j], stop)
  }

  /** The condition on concrete words: short, ignored and non-alphabetic words go. */
  lemma RejectedExamples(english: set<string>)
    requires "archive" !in english
    ensures Rejected("of", StopWords(english))
    ensures Rejected("york", StopWords(english))
    ensures Rejected("1960s", StopWords(english))
    ensures !Rejected("archive", StopWords(english))
    ensures forall w :: w in IgnoredWords ==> Rejected(w, StopWords(english))
  {
    assert !IsLetter("1960s"[0]);
  }

  /** `apply_freq_filter(k)`: drops every window seen fewer than k times. */
  function FreqFilter(fd: map<Ngram, nat>, minFreq: nat): map<Ngram, nat>
  {
    map w | w in fd && fd[w] >= minFreq :: fd[w]
  }

  /** `apply_word_filter(condition)`: drops every window holding a rejected word. */
  function WordFilter(fd: map<Ngram, nat>, stop: set<string>): map<Ngram, nat>
  {
    map w | w in fd && NoneRejected(w, stop) :: fd[w]
  }

  /** What survives `applyFilter` for windows of n tokens. */
  function Candidates(tokens: seq<string>, n: nat, stop: set<string>): map<Ngram, nat>
    requires n >= 1
  {
    WordFilter(FreqFilter(NgramFd(tokens, n), 2), stop)
  }

  /**
   * A window is a candidate exactly when it has n tokens, occurs at least
   * twice and none of its words is rejected; its entry is its count.
   */
  lemma {:induction false} CandidatesIff(tokens: seq<string>, n: nat, stop: set<string>, w: Ngram)
    requires n >= 1
    ensures w in Candidates(tokens, n, stop) <==>
              |w| == n && Frequency(tokens, w) >= 2 && NoneRejected(w, stop)
    ensures w in Candidates(tokens, n, stop) ==> Candidates(tokens, n, stop)[w] == Frequency(tokens, w)
  {
    NgramFdKeys(tokens, n, w);
  }

  /** The two filters of `applyFilter` can be applied in either order. */
  lemma FiltersCommute(fd: map<Ngram, nat>, minFreq: nat, stop: set<string>)
    ensures WordFilter(FreqFilter(fd, minFreq), stop) == FreqFilter(WordFilter(fd, stop), minFreq)
  {
  }

  /**
   * A text written out twice: each window of it that keeps all its words
   * occurs at least twice and so is a candidate.
   */
  lemma {:induction false} RepeatedCandidate(t: seq<string>, n: nat, stop: set<string>, w: Ngram, i: nat)
    requires n >= 1 && |w| == n && OccursAt(t, w, i)
    requires NoneRejected(w, stop)
    ensures w in Candidates(t + t, n, stop)
  {
    FrequencyPositive(t, w);
    FrequencyAppend(t, t, w);
    CandidatesIff(t + t, n, stop, w);
  }

  /**
   * "the quick brown fox" twice: its bigrams of kept words are candidates,
   * a bigram holding a stop word is not.
   */
  lemma {:induction false} RepeatedSentence(english: set<string>)
    requires "the" in english
    requires "quick" !in english && "brown" !in english && "fox" !in english
    ensures var t := ["the", "quick", "brown", "fox"];
            var c := Candidates(t + t, 2, StopWords(english));
            && ["quick", "brown"] in c
            && ["brown", "fox"] in c
            && ["the", "quick"] !in c
  {
    var t := ["the", "quick", "brown", "fox"];
    var stop := StopWords(english);
    assert IsAlpha("quick") && IsAlpha("brown") && IsAlpha("fox");
    assert t[1..3] == ["quick", "brown"] && t[2..4] == ["brown", "fox"];
    RepeatedCandidate(t, 2, stop, ["quick", "brown"], 1);
    RepeatedCandidate(t, 2, stop, ["brown", "fox"], 2);
    CandidatesIff(t + t, 2, stop, ["the", "quick"]);
    assert Rejected(["the", "quick"][0], stop);
  }

  /** No element appears twice. */
  predicate Distinct(s: seq<Ngram>)
  {
    forall i, j :: 0 <= i < j < |s| ==> s[i] != s[j]
  }

  /** `rank` lists the windows of `keys`, each once: the order `nbest` would give them. */
  predicate Enumerates(rank: seq<Ngram>, keys: set<Ngram>)
  {
    && Distinct(rank)
    && (forall w :: w in rank ==> w in keys)
    && (forall w :: w in keys ==> w in rank)
  }

  /** An enumeration is as long as the set it enumerates. */
  lemma {:induction false} EnumerationSize(rank: seq<Ngram>, keys: set<Ngram>)
    requires Enumerates(rank, keys)
    ensures |rank| == |keys|
    decreases |rank|
  {
    if rank != [] {
      var rest := keys - {rank[0]};
      forall w ensures w in rank[1..] <==> w in rest {
        if w in rank[1..] {
          var j :| 0 <= j < |rank[1..]| && rank[1..][j] == w;
          assert rank[j + 1] == w;
        }
      }
      EnumerationSize(rank[1..], rest);
    } else {
      assert keys == {};
    }
  }

  function Min(a: nat, b: nat): nat
  {
    if a < b then a else b
  }

  /** A report of `nbest(score, k)` from table c: min(k, |c|) windows of c, none twice. */
  predicate Reported(best: seq<Ngram>, k: nat, c: map<Ngram, nat>)
  {
    && |best| == Min(k, |c|)
    && Distinct(best)
    && forall i :: 0 <= i < |best| ==> best[i] in c
  }

  /** The lemmatised corpus: every word passed through the lemmatiser. */
  function Lemmatized(words: seq<string>, lemmatize: string -> string): (r: seq<string>)
    ensures |r| == |words|
    ensures forall i :: 0 <= i < |words| ==> r[i] == lemmatize(words[i])
  {
    seq(|words|, i requires 0 <= i < |words| => lemmatize(words[i]))
  }

  /** Cutting a window and lemmatising commute: the windows of the lemmatised text are the lemmatised windows. */
  lemma LemmatizedWindow(words: seq<string>, lemmatize: string -> string, i: nat, n: nat)
    requires i + n <= |words|
    ensures Lemmatized(words, lemmatize)[i..i + n] == Lemmatized(words[i..i + n], lemmatize)
  {
  }

  /**
   * Lemmatising can merge windows but never loses one: a window of the
   * corpus occurs, once lemmatised, at least as often in the lemmatised text.
   */
  lemma {:induction false} LemmatizedFrequency(words: seq<string>, w: Ngram, lemmatize: string -> string)
    requires w != []
    ensures Frequency(Lemmatized(words, lemmatize), Lemmatized(w, lemmatize)) >= Frequency(words, w)
    decreases |words|
  {
    var text := Lemmatized(words, lemmatize);
    var lw := Lemmatized(w, lemmatize);
    if |words| >= |w| {
      LemmatizedWindow(words, lemmatize, 0, |w|);
      LemmatizedWindow(words, lemmatize, 1, |words| - 1);
      assert text[..|lw|] == text[0..|w|] && words[..|w|] == words[0..|w|];
      assert text[1..] == text[1..1 + (|words| - 1)] && words[1..] == words[1..1 + (|words| - 1)];
      LemmatizedFrequency(words[1..], w, lemmatize);
    }
  }

  /** A collocation finder: the table `ngram_fd` of windows and their counts. */
  class Finder {
    var ngramFd: map<Ngram, nat>

    /** `from_words(text, n)`: counts every contiguous window of n tokens. */
    constructor FromWords(words: seq<string>, n: nat)
      requires n >= 1
      ensures ngramFd == NgramFd(words, n)
    {
      ngramFd := NgramFd(words, n);
    }

    /** Removes, in place, every window seen fewer than `minFreq` times. */
    method ApplyFreqFilter(minFreq: nat)
      modifies this
      ensures ngramFd == FreqFilter(old(ngramFd), minFreq)
    {
      ngramFd := FreqFilter(ngramFd, minFreq);
    }

    /** Removes, in place, every window that holds a word the condition rejects. */
    method ApplyWordFilter(stop: set<string>)
      modifies this
      ensures ngramFd == WordFilter(old(ngramFd), stop)
    {
      ngramFd := WordFilter(ngramFd, stop);
    }

    /**
     * `nbest(score, k)`: the first k windows of the ranking, so at most k,
     * all of them in the table, none twice.
     */
    method NBest(rank: seq<Ngram>, k: nat) returns (best: seq<Ngram>)
      requires Enumerates(rank, ngramFd.Keys)
      ensures Reported(best, k, ngramFd)
      ensures |best| <= |rank| && best == rank[..|best|]
    {
      EnumerationSize(rank, ngramFd.Keys);
      best := rank[..Min(k, |rank|)];
      assert forall i :: 0 <= i < |best| ==> best[i] == rank[i];
    }
  }

  /** `applyFilter`: frequency at least 2, then the word condition. */
  method ApplyFilter(finder: Finder, stop: set<string>)
    modifies finder
    ensures finder.ngramFd == WordFilter(FreqFilter(old(finder.ngramFd), 2), stop)
  {
    finder.ApplyFreqFilter(2);
    finder.ApplyWordFilter(stop);
  }

  /**
   * The loop of `getCollocations` over n = 2, 3, 4: `report[n - 2]` holds
   * min(100, number of candidates) distinct candidate windows of n tokens,
   * taken best first from `ranks[n - 2]`.
   */
  method GetCollocations(words: seq<string>, lemmatize: string -> string, english: set<string>,
                         ranks: seq<seq<Ngram>>)
    returns (report: seq<seq<Ngram>>)
    requires |ranks| == 3
    requires forall k :: 0 <= k < 3 ==>
               Enumerates(ranks[k], Candidates(Lemmatized(words, lemmatize), k + 2, StopWords(english)).Keys)
    ensures |report| == 3
    ensures forall k :: 0 <= k < 3 ==>
              Reported(report[k], 100, Candidates(Lemmatized(words, lemmatize), k + 2, StopWords(english)))
  {
    var text := Lemmatized(words, lemmatize);
    var stop := StopWords(english);
    report := [];
    for k := 0 to 3
      invariant |report| == k
      invariant forall j :: 0 <= j < k ==> Reported(report[j], 100, Candidates(text, j + 2, stop))
    {
      var finder := new Finder.FromWords(text, k + 2);
      ApplyFilter(finder, stop);
      var best := finder.NBest(ranks[k], 100);
      report := report + [best];
    }
  }
}
