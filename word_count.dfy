/**
 * `word_count`: split a string on whitespace, drop a fixed set of punctuation characters
 * from every token, lowercase what is left and count the results, stopping at the first
 * token that is left empty.
 *
 * `str.split()` and `str.lower()` are library calls; the model takes them on ASCII:
 * the whitespace `str.split()` breaks at is its ASCII whitespace, and lowercasing maps
 * `A`-`Z` to `a`-`z` and leaves every other character alone.
 */
module WordCounting {

  /** `removed_char`: the twenty characters dropped from every token. */
  const RemovedChars: seq<char> := "\":;,.-+=/\\|[]{}()*^&"

  /** The ASCII characters `str.split()` treats as whitespace: space, tab to carriage return, and the four separators 0x1C-0x1F. */
  predicate IsSpace(c: char)
  {
    c == ' ' || 9 <= c as int <= 13 || 28 <= c as int <= 31
  }

  /** A token `str.split()` can produce: non-empty and free of whitespace. */
  predicate IsToken(t: string)
  {
    |t| > 0 && forall i :: 0 <= i < |t| ==> !IsSpace(t[i])
  }

  /** The length of the run of non-whitespace characters that `s` starts with. */
  function TokenLength(s: string): (n: nat)
    ensures n <= |s|
    ensures forall i :: 0 <= i < n ==> !IsSpace(s[i])
    ensures n < |s| ==> IsSpace(s[n])
  {
    if |s| == 0 || IsSpace(s[0]) then 0 else 1 + TokenLength(s[1..])
  }

  /** `s.split()`: the maximal runs of non-whitespace characters of `s`, in order. */
  function Split(s: string): (tokens: seq<string>)
    ensures forall k :: 0 <= k < |tokens| ==> IsToken(tokens[k])
    decreases |s|
  {
    if |s| == 0 then []
    else if IsSpace(s[0]) then Split(s[1..])
    else
      var n := TokenLength(s);
      [s[..n]] + Split(s[n..])
  }

  /** The characters of `s` that are not whitespace, in order. */
  function NonSpace(s: string): string
  {
    if |s| == 0 then [] else (if IsSpace(s[0]) then [] else [s[0]]) + NonSpace(s[1..])
  }

  function Concat(tokens: seq<string>): string
  {
    if |tokens| == 0 then [] else tokens[0] + Concat(tokens[1..])
  }

  /** A run of non-whitespace characters passes through `NonSpace` unchanged. */
  lemma {:induction false} NonSpaceOfRun(s: string, n: nat)
    requires n <= |s| && forall i :: 0 <= i < n ==> !IsSpace(s[i])
    ensures NonSpace(s) == s[..n] + NonSpace(s[n..])
  {
    if n > 0 {
      NonSpaceOfRun(s[1..], n - 1);
      assert s[1..][n - 1..] == s[n..];
      assert s[..n] == [s[0]] + s[1..][..n - 1];
    }
  }

  /** Splitting loses only whitespace: the tokens, put back together, are the non-whitespace characters of `s`. */
  lemma {:induction false} SplitKeepsNonSpace(s: string)
    ensures Concat(Split(s)) == NonSpace(s)
    decreases |s|
  {
    if |s| > 0 {
      if IsSpace(s[0]) {
        SplitKeepsNonSpace(s[1..]);
      } else {
        var n := TokenLength(s);
        var rest := Split(s[n..]);
        SplitKeepsNonSpace(s[n..]);
        NonSpaceOfRun(s, n);
        assert ([s[..n]] + rest)[1..] == rest;
      }
    }
  }

  /** `s.split()` is empty exactly when `s` holds nothing but whitespace. */
  lemma {:induction false} SplitEmpty(s: string)
    ensures |Split(s)| == 0 <==> forall i :: 0 <= i < |s| ==> IsSpace(s[i])
    decreases |s|
  {
    if |s| > 0 {
      SplitEmpty(s[1..]);
      if IsSpace(s[0]) {
        assert forall i :: 0 < i < |s| ==> s[i] == s[1..][i - 1];
      }
    }
  }

  /** A token on its own splits into just itself. */
  lemma SplitToken(w: string)
    requires IsToken(w)
    ensures Split(w) == [w]
  {
    var n := TokenLength(w);
    assert n == |w|;
    assert w[..n] == w && |w[n..]| == 0;
  }

  /**
   * A whitespace character separates: the tokens of `a + [c] + b` are those of `a`, then those
   * of `b`. With `SplitToken` and `SplitEmpty` this determines `s.split()` on every string.
   */
  lemma {:induction false} SplitAtSpace(a: string, c: char, b: string)
    requires IsSpace(c)
    ensures Split(a + [c] + b) == Split(a) + Split(b)
    decreases |a|
  {
    var s := a + [c] + b;
    if |a| == 0 {
      assert s[1..] == b;
    } else if IsSpace(a[0]) {
      assert s[1..] == a[1..] + [c] + b;
      SplitAtSpace(a[1..], c, b);
    } else {
      var m := TokenLength(a);
      RunBeforeSpace(a, c, b);
      assert s[..m] == a[..m];
      assert s[m..] == a[m..] + [c] + b;
      SplitAtSpace(a[m..], c, b);
    }
  }

  /** The leading run of `a` is also the leading run of `a + [c] + b` when `c` is whitespace. */
  lemma RunBeforeSpace(a: string, c: char, b: string)
    requires IsSpace(c)
    ensures TokenLength(a + [c] + b) == TokenLength(a)
  {
    var s, m := a + [c] + b, TokenLength(a);
    assert forall i :: 0 <= i < |a| ==> s[i] == a[i];
    assert s[|a|] == c;
    RunIs(s, m);
  }

  /** The leading run has the length that the run's description gives. */
  lemma RunIs(s: string, n: nat)
    requires n <= |s| && forall i :: 0 <= i < n ==> !IsSpace(s[i])
    requires n < |s| ==> IsSpace(s[n])
    ensures TokenLength(s) == n
  {
  }

  /** The inner loop's result: `w` with every character of `removed_char` dropped. */
  function Scrubbed(w: string): string
  {
    if |w| == 0 then []
    else Scrubbed(w[..|w| - 1]) + (if w[|w| - 1] in RemovedChars then [] else [w[|w| - 1]])
  }

  /** Scrubbing keeps exactly the characters that are not in `removed_char`. */
  lemma {:induction false} ScrubbedChars(w: string, c: char)
    ensures c in Scrubbed(w) <==> c in w && c !in RemovedChars
  {
    if |w| > 0 {
      var p := w[..|w| - 1];
      ScrubbedChars(p, c);
      assert w == p + [w[|w| - 1]];
    }
  }

  /** A token with no character of `removed_char` comes out of scrubbing unchanged. */
  lemma {:induction false} ScrubbedClean(w: string)
    requires forall i :: 0 <= i < |w| ==> w[i] !in RemovedChars
    ensures Scrubbed(w) == w
  {
    if |w| > 0 {
      ScrubbedClean(w[..|w| - 1]);
      assert w == w[..|w| - 1] + [w[|w| - 1]];
    }
  }

  /** ASCII lowercasing of one character. */
  function LowerChar(c: char): char
  {
    if 'A' <= c <= 'Z' then (c as int - 'A' as int + 'a' as int) as char else c
  }

  /** `str.lower()` on ASCII. */
  function Lower(w: string): (r: string)
    ensures |r| == |w|
  {
    seq(|w|, i requires 0 <= i < |w| => LowerChar(w[i]))
  }

  /** Lowercasing twice is lowercasing once. */
  lemma LowerIdempotent(w: string)
    ensures Lower(Lower(w)) == Lower(w)
  {
    forall i | 0 <= i < |w|
      ensures Lower(Lower(w))[i] == Lower(w)[i]
    {
      var c := w[i];
      if 'A' <= c <= 'Z' {
        assert 'a' <= LowerChar(c) <= 'z';
      }
    }
  }

  /** Lowercasing neither brings in nor takes away a character of `removed_char`: none of them is a letter. */
  lemma LowerKeepsRemoved(c: char)
    ensures LowerChar(c) in RemovedChars <==> c in RemovedChars
  {
    if 'A' <= c <= 'Z' {
      assert 'a' <= LowerChar(c) <= 'z';
      assert forall i :: 0 <= i < |RemovedChars| ==> !('A' <= RemovedChars[i] <= 'Z') && !('a' <= RemovedChars[i] <= 'z');
    }
  }

  /** What a token is counted as: scrubbed, then lowercased (lines 8-12). */
  function Normalize(w: string): (word: string)
    ensures |word| <= |w|
  {
    ScrubbedLength(w);
    Lower(Scrubbed(w))
  }

  lemma {:induction false} ScrubbedLength(w: string)
    ensures |Scrubbed(w)| <= |w|
  {
    if |w| > 0 {
      ScrubbedLength(w[..|w| - 1]);
    }
  }

  /** A counted word holds no character of `removed_char` and is its own lowercase form. */
  lemma NormalizeClean(w: string)
    ensures forall c :: c in Normalize(w) ==> c !in RemovedChars
    ensures Lower(Normalize(w)) == Normalize(w)
  {
    var s := Scrubbed(w);
    forall c | c in Normalize(w)
      ensures c !in RemovedChars
    {
      var i :| 0 <= i < |s| && Lower(s)[i] == c;
      ScrubbedChars(w, s[i]);
      LowerKeepsRemoved(s[i]);
    }
    LowerIdempotent(s);
  }

  /** The position of the first token left empty by scrubbing, or the number of tokens: where the loop stops. */
  function StopIndex(tokens: seq<string>): (stop: nat)
    ensures stop <= |tokens|
    ensures forall k :: 0 <= k < stop ==> |Normalize(tokens[k])| > 0
    ensures stop < |tokens| ==> |Normalize(tokens[stop])| == 0
  {
    if |tokens| == 0 then 0
    else if |Normalize(tokens[0])| == 0 then 0
    else 1 + StopIndex(tokens[1..])
  }

  /** A token with a non-empty normal form before the stopping point moves the scan on by one. */
  lemma StopIndexStep(tokens: seq<string>, i: nat)
    requires i < |tokens| && i <= StopIndex(tokens) && |Normalize(tokens[i])| > 0
    ensures i + 1 <= StopIndex(tokens)
  {
  }

  /** The loop's stopping point is the only position with that description. */
  lemma StopIndexUnique(tokens: seq<string>, i: nat)
    requires i <= |tokens|
    requires forall k :: 0 <= k < i ==> |Normalize(tokens[k])| > 0
    requires i < |tokens| ==> |Normalize(tokens[i])| == 0
    ensures StopIndex(tokens) == i
  {
  }

  /** The scan stops at the first token with an empty normal form, or after the last token. */
  lemma StopIndexAt(tokens: seq<string>, i: nat)
    requires i <= StopIndex(tokens)
    requires i == |tokens| || (i < |tokens| && |Normalize(tokens[i])| == 0)
    ensures StopIndex(tokens) == i
  {
  }

  /** One more occurrence of `word`: `counts[word] += 1`, or `counts[word] = 1` for a new word. */
  function Bump(counts: map<string, nat>, word: string): (r: map<string, nat>)
    ensures r.Keys == counts.Keys + {word}
    ensures forall w :: w in counts && w != word ==> r[w] == counts[w]
    ensures r[word] == if word in counts then counts[word] + 1 else 1
  {
    counts[word := if word in counts then counts[word] + 1 else 1]
  }

  /** The dictionary built by counting the normal forms of `tokens`, from the first. */
  function Tally(tokens: seq<string>): map<string, nat>
  {
    if |tokens| == 0 then map[]
    else Bump(Tally(tokens[..|tokens| - 1]), Normalize(tokens[|tokens| - 1]))
  }

  /** Counting one more token bumps its normal form. */
  lemma TallyStep(tokens: seq<string>, i: nat)
    requires i < |tokens|
    ensures Tally(tokens[..i + 1]) == Bump(Tally(tokens[..i]), Normalize(tokens[i]))
  {
    assert tokens[..i + 1][..i] == tokens[..i];
  }

  /** The normal forms of `tokens`, in order. */
  function NormalForms(tokens: seq<string>): (words: seq<string>)
    ensures |words| == |tokens|
    ensures forall k :: 0 <= k < |tokens| ==> words[k] == Normalize(tokens[k])
  {
    seq(|tokens|, k requires 0 <= k < |tokens| => Normalize(tokens[k]))
  }

  /**
   * The tally counts every normal form as often as it occurs: a word is a key exactly when
   * it occurs, and its count is its number of occurrences.
   */
  lemma {:induction false} TallyIsMultiplicity(tokens: seq<string>)
    ensures forall w :: w in Tally(tokens) <==> multiset(NormalForms(tokens))[w] > 0
    ensures forall w :: w in Tally(tokens) ==> Tally(tokens)[w] == multiset(NormalForms(tokens))[w]
  {
    if |tokens| > 0 {
      var p, t := tokens[..|tokens| - 1], tokens[|tokens| - 1];
      TallyIsMultiplicity(p);
      NormalFormsSnoc(tokens);
    }
  }

  lemma NormalFormsSnoc(tokens: seq<string>)
    requires |tokens| > 0
    ensures multiset(NormalForms(tokens)) ==
              multiset(NormalForms(tokens[..|tokens| - 1])) + multiset{Normalize(tokens[|tokens| - 1])}
  {
    var p := tokens[..|tokens| - 1];
    assert NormalForms(tokens) == NormalForms(p) + [Normalize(tokens[|tokens| - 1])];
  }

  /** What `word_count(s)` returns. */
  function CountWords(s: string): map<string, nat>
  {
    var tokens := Split(s);
    Tally(tokens[..StopIndex(tokens)])
  }

  /** Lines 8-11: the inner loop, building `new_word` from the characters not in `removed_char`. */
  method Scrub(w: string) returns (newWord: string)
    ensures newWord == Scrubbed(w)
  {
    newWord := "";
    for j := 0 to |w|
      invariant newWord == Scrubbed(w[..j])
    {
      assert w[..j + 1][..j] == w[..j];
      if w[j] !in RemovedChars {
        newWord := newWord + [w[j]];
      }
    }
    assert w[..|w|] == w;
  }

  /**
   * Lines 8-19 on one token: scrub and lowercase it, then count the word, or report that the
   * word is empty, where the loop breaks off.
   */
  method CountToken(counts: map<string, nat>, token: string) returns (next: map<string, nat>, stop: bool)
    requires "" !in counts
    ensures stop <==> |Normalize(token)| == 0
    ensures !stop ==> next == Bump(counts, Normalize(token)) && "" !in next
  {
    var newWord := Scrub(token);
    var word := Lower(newWord);
    next, stop := counts, false;
    if word in counts {
      next := counts[word := counts[word] + 1];
    } else if |word| == 0 {
      stop := true;
    } else {
      next := counts[word := 1];
    }
  }

  /** Lines 2-24: `word_count`, with its outer loop over the tokens and its early `break`. */
  method WordCount(s: string) returns (counts: map<string, nat>)
    ensures counts == CountWords(s)
  {
    counts := map[];
    var tokens := Split(s);
    var i := 0;
    while i < |tokens|
      invariant i <= StopIndex(tokens)
      invariant counts == Tally(tokens[..i])
      invariant "" !in counts
    {
      var next, stop := CountToken(counts, tokens[i]);
      if stop {
        break;
      }
      StopIndexStep(tokens, i);
      TallyStep(tokens, i);
      counts := next;
      i := i + 1;
    }
    StopIndexAt(tokens, i);
    if |s| == 0 {
      counts := map[];
    }
  }

  /** `word_count("")` and `word_count` of a string holding only whitespace are `{}`. */
  lemma BlankGivesNothing(s: string)
    requires forall i :: 0 <= i < |s| ==> IsSpace(s[i])
    ensures CountWords(s) == map[]
  {
    SplitEmpty(s);
  }

  /** Every key is a non-empty word with no character of `removed_char`, equal to its own lowercase form, and counted at least once. */
  lemma CountWordsKeys(s: string)
    ensures forall w :: w in CountWords(s) ==>
              |w| > 0 && Lower(w) == w && CountWords(s)[w] >= 1 &&
              forall c :: c in w ==> c !in RemovedChars
  {
    var tokens := Split(s);
    var before := tokens[..StopIndex(tokens)];
    TallyIsMultiplicity(before);
    forall w | w in CountWords(s)
      ensures |w| > 0 && Lower(w) == w && CountWords(s)[w] >= 1
      ensures forall c :: c in w ==> c !in RemovedChars
    {
      assert w in multiset(NormalForms(before));
      var k :| 0 <= k < |before| && NormalForms(before)[k] == w;
      NormalizeClean(before[k]);
    }
  }

  /**
   * Each count is the number of tokens before the stopping point that normalise to the key,
   * so the counts, taken as a multiset, have exactly as many elements as tokens were counted.
   */
  lemma CountWordsCounts(s: string)
    ensures var tokens := Split(s);
            var counted := multiset(NormalForms(tokens[..StopIndex(tokens)]));
            (forall w :: w in CountWords(s) <==> counted[w] > 0) &&
            (forall w :: w in CountWords(s) ==> CountWords(s)[w] == counted[w]) &&
            |counted| == StopIndex(tokens)
  {
    var tokens := Split(s);
    TallyIsMultiplicity(tokens[..StopIndex(tokens)]);
  }

  /** A token left empty by scrubbing ends the count: no token after it is counted, whatever it holds. */
  lemma StopIgnoresLaterTokens(tokens: seq<string>, later: seq<string>)
    requires StopIndex(tokens) < |tokens|
    ensures StopIndex(tokens + later) == StopIndex(tokens)
  {
    var t := tokens + later;
    assert forall k :: 0 <= k < |tokens| ==> t[k] == tokens[k];
    StopIndexUnique(t, StopIndex(tokens));
  }

  /** The apostrophe is not in `removed_char`, so `doesn't` is counted as is. */
  lemma ApostropheKept()
    ensures Normalize("doesn't") == "doesn't"
  {
    ScrubbedClean("doesn't");
  }
}
