/**
 * The configurable splitter of the diffhtml command: it alternates reading
 * a word up to the next delimiter with accepting one delimiter rune, and
 * stops after the first round that finds neither.
 */
module DiffHtml {
  import opened TokenBuf

  /** The runes of `delimiters` are tried one by one; this is the one that can be accepted at `e`. */
  predicate DelimiterAt(s: string, e: nat, delimiters: string)
  {
    e < |s| && s[e] in delimiters
  }

  /**
   * The tokens the splitter returns for the input from position `p` on.
   * A round emits the word Until finds, when it is not empty, then the
   * delimiter rune that follows it, when there is one; the split ends with
   * the first round that emits nothing.
   */
  function DelimTokens(s: string, p: nat, delimiters: string): seq<string>
    requires p <= |s|
    decreases |s| - p
  {
    var e := UntilEnd(s, p, RuneSet(delimiters));
    var d := DelimiterAt(s, e, delimiters);
    if e == p && !d then []
    else
      var f := if d then e + 1 else e;
      (if e == p then [] else [s[p..e]]) + (if d then [[s[e]]] else []) + DelimTokens(s, f, delimiters)
  }

  /** One round of DelimTokens. */
  lemma DelimTokensStep(s: string, p: nat, delimiters: string)
    requires p <= |s|
    ensures var e := UntilEnd(s, p, RuneSet(delimiters));
            var d := DelimiterAt(s, e, delimiters);
            DelimTokens(s, p, delimiters)
            == if e == p && !d then []
               else (if e == p then [] else [s[p..e]]) + (if d then [[s[e]]] else [])
                    + DelimTokens(s, if d then e + 1 else e, delimiters)
  {
  }

  /** A round that emits a word or a delimiter is followed by the rounds from where it stopped. */
  lemma DelimTokensNext(s: string, p: nat, delimiters: string, e: nat, word: seq<string>, delimiter: seq<string>, f: nat)
    requires p <= e <= |s| && e == UntilEnd(s, p, RuneSet(delimiters))
    requires word == if e == p then [] else [s[p..e]]
    requires if DelimiterAt(s, e, delimiters) then delimiter == [[s[e]]] && f == e + 1 else delimiter == [] && f == e
    requires word != [] || delimiter != []
    ensures f <= |s|
    ensures DelimTokens(s, p, delimiters) == word + delimiter + DelimTokens(s, f, delimiters)
  {
  }

  /**
   * The inner loop of the splitter: tries the delimiter runes in their
   * order and accepts the first one the input continues with, so at most
   * one rune is read.
   */
  method AcceptDelimiter(tr: TokenReader, sr: string) returns (delim: string, found: bool)
    requires tr.Valid()
    modifies tr
    ensures tr.Valid()
    ensures found <==> DelimiterAt(tr.input, old(tr.pos), sr)
    ensures found ==> delim == [tr.input[old(tr.pos)]] && tr.pos == old(tr.pos) + 1
    ensures !found ==> tr.pos == old(tr.pos)
  {
    for i := 0 to |sr|
      invariant tr.Valid() && tr.pos == old(tr.pos)
      invariant forall k :: 0 <= k < i ==> !At(tr.input, tr.pos, [sr[k]])
    {
      var _, accepted := tr.AcceptToken([sr[i]]);
      if accepted {
        assert tr.input[old(tr.pos)..old(tr.pos) + 1] == [sr[i]];
        return [sr[i]], true;
      }
    }
    delim, found := "", false;
    assert !DelimiterAt(tr.input, tr.pos, sr);
  }

  /**
   * The splitter getSplitter builds for a delimiter list, run on a reader:
   * it returns DelimTokens of what is left to read, and leaves the reader
   * at the end of the input when NUL is a delimiter and at the next NUL
   * otherwise.
   */
  method SplitDelimiters(tr: TokenReader, delimiters: string) returns (tokens: seq<string>)
    requires tr.Valid()
    modifies tr
    ensures tr.Valid()
    ensures tokens == DelimTokens(tr.input, old(tr.pos), delimiters)
    ensures tr.pos == if NUL in delimiters then |tr.input| else NulIndex(tr.input, old(tr.pos))
  {
    tokens := [];
    var tokenFound := false;
    while true
      invariant tr.Valid()
      invariant old(tr.pos) <= tr.pos
      invariant tokens + DelimTokens(tr.input, tr.pos, delimiters) == DelimTokens(tr.input, old(tr.pos), delimiters)
      invariant NUL !in delimiters ==> NulIndex(tr.input, tr.pos) == NulIndex(tr.input, old(tr.pos))
      decreases |tr.input| - tr.pos
    {
      ghost var start, before := tr.pos, tokens;
      // What this round emits: the word, then the delimiter.
      ghost var word: seq<string>, delimiter: seq<string> := [], [];
      tokenFound := false;
      var token, found := tr.Until(delimiters);
      if found {
        tokenFound := true;
        tokens := tokens + [token];
        word := [token];
      }
      ghost var e := tr.pos;
      assert tokens == before + word;
      var delim, delimFound := AcceptDelimiter(tr, delimiters);
      if delimFound {
        tokenFound := true;
        tokens := tokens + [delim];
        delimiter := [delim];
      }
      assert tokens == before + word + delimiter;
      if !tokenFound {
        DelimTokensStep(tr.input, start, delimiters);
        UntilEndIs(tr.input, start, {}, start);
        break;
      }
      DelimTokensNext(tr.input, start, delimiters, e, word, delimiter, tr.pos);
      AppendAssoc(before, word, delimiter);
      AppendAssoc(before, word + delimiter, DelimTokens(tr.input, tr.pos, delimiters));
      if NUL !in delimiters {
        RoundKeepsNul(tr.input, start, delimiters, e, tr.pos);
      }
    }
  }

  /** The splitter on a fresh reader over `s`, as the diff engine calls it. */
  method DelimiterSplit(s: string, delimiters: string) returns (tokens: seq<string>)
    ensures tokens == DelimTokens(s, 0, delimiters)
  {
    var tr := new TokenReader.FromString(s);
    tokens := SplitDelimiters(tr, delimiters);
  }

  /** A token the splitter may emit: one delimiter rune, or a non-empty word with no delimiter and no NUL. */
  predicate DelimToken(t: string, delimiters: string)
  {
    (|t| == 1 && t[0] in delimiters)
    || (t != "" && forall k :: 0 <= k < |t| ==> t[k] != NUL && t[k] !in delimiters)
  }

  /** Every token is a single delimiter rune or a non-empty word free of delimiters and NUL. */
  lemma {:induction false} DelimTokensShape(s: string, p: nat, delimiters: string)
    requires p <= |s|
    ensures forall t :: t in DelimTokens(s, p, delimiters) ==> DelimToken(t, delimiters)
    decreases |s| - p
  {
    var e := UntilEnd(s, p, RuneSet(delimiters));
    var d := DelimiterAt(s, e, delimiters);
    if e > p || d {
      var f := if d then e + 1 else e;
      var rest := DelimTokens(s, f, delimiters);
      DelimTokensShape(s, f, delimiters);
      forall t | t in DelimTokens(s, p, delimiters)
        ensures DelimToken(t, delimiters)
      {
        if t !in rest && !(d && t == [s[e]]) {
          assert t == s[p..e];
          assert forall k :: 0 <= k < |t| ==> t[k] == s[p + k];
        }
      }
    }
  }

  /** No word is followed directly by another word: between two words there is a delimiter. */
  lemma {:induction false} DelimTokensSeparated(s: string, p: nat, delimiters: string)
    requires p <= |s|
    ensures var r := DelimTokens(s, p, delimiters);
            forall i :: 0 <= i < |r| - 1 && r[i] != "" && r[i][0] !in delimiters ==> |r[i + 1]| == 1 && r[i + 1][0] in delimiters
    decreases |s| - p
  {
    var e := UntilEnd(s, p, RuneSet(delimiters));
    var d := DelimiterAt(s, e, delimiters);
    if e > p || d {
      var f := if d then e + 1 else e;
      var rest := DelimTokens(s, f, delimiters);
      DelimTokensSeparated(s, f, delimiters);
      DelimTokensStep(s, p, delimiters);
      if e > p && !d {
        var e' := UntilEnd(s, f, RuneSet(delimiters));
        assert e' == f;
        assert rest == [];
      } else if e > p {
        assert s[p..e][0] == s[p];
      }
    }
  }

  /** Skipping runes that are not NUL does not move the next NUL. */
  lemma NulIndexSkip(s: string, p: nat, f: nat)
    requires p <= f <= |s|
    requires forall k :: p <= k < f ==> s[k] != NUL
    ensures NulIndex(s, p) == NulIndex(s, f)
  {
    UntilEndIs(s, p, {}, NulIndex(s, f));
  }

  /** Without NUL among the delimiters, a round never reads past the next NUL. */
  lemma RoundKeepsNul(s: string, p: nat, delimiters: string, e: nat, f: nat)
    requires NUL !in delimiters
    requires p <= e <= |s| && e == UntilEnd(s, p, RuneSet(delimiters))
    requires if DelimiterAt(s, e, delimiters) then f == e + 1 else f == e
    ensures f <= |s| && NulIndex(s, p) == NulIndex(s, f)
  {
    assert forall k :: p <= k < f ==> s[k] != NUL;
    NulIndexSkip(s, p, f);
  }

  /** One round of DelimTokens rebuilds the runes it read. */
  lemma DelimRoundConcat(s: string, p: nat, delimiters: string)
    requires p <= |s|
    ensures var e := UntilEnd(s, p, RuneSet(delimiters));
            var d := DelimiterAt(s, e, delimiters);
            Concat((if e == p then [] else [s[p..e]]) + (if d then [[s[e]]] else []))
            == s[p..if d then e + 1 else e]
  {
    var e := UntilEnd(s, p, RuneSet(delimiters));
    var d := DelimiterAt(s, e, delimiters);
    var word: seq<string> := if e == p then [] else [s[p..e]];
    var delim: seq<string> := if d then [[s[e]]] else [];
    ConcatAppend(word, delim);
    assert Concat(word) == s[p..e] by {
      if e > p {
        assert Concat(word) == s[p..e] + Concat([]);
      }
    }
    if d {
      assert Concat(delim) == [s[e]] + Concat([]);
      assert s[p..e] + [s[e]] == s[p..e + 1];
    }
  }

  /** A round that emits something is followed by the rounds from where it stopped. */
  lemma DelimTokensRound(s: string, p: nat, delimiters: string, f: nat)
    requires p <= |s|
    requires UntilEnd(s, p, RuneSet(delimiters)) > p || DelimiterAt(s, UntilEnd(s, p, RuneSet(delimiters)), delimiters)
    requires f == if DelimiterAt(s, UntilEnd(s, p, RuneSet(delimiters)), delimiters)
                  then UntilEnd(s, p, RuneSet(delimiters)) + 1 else UntilEnd(s, p, RuneSet(delimiters))
    ensures p < f <= |s|
    ensures Concat(DelimTokens(s, p, delimiters)) == s[p..f] + Concat(DelimTokens(s, f, delimiters))
  {
    var e := UntilEnd(s, p, RuneSet(delimiters));
    var d := DelimiterAt(s, e, delimiters);
    var round := (if e == p then [] else [s[p..e]]) + (if d then [[s[e]]] else []);
    var rest := DelimTokens(s, f, delimiters);
    calc {
      Concat(DelimTokens(s, p, delimiters));
      { DelimTokensStep(s, p, delimiters); }
      Concat(round + rest);
      { ConcatAppend(round, rest); }
      Concat(round) + Concat(rest);
      { DelimRoundConcat(s, p, delimiters); }
      s[p..f] + Concat(rest);
    }
  }

  /** With NUL among the delimiters, the tokens from `p` rebuild the rest of the input. */
  lemma {:induction false} DelimTokensConcatAll(s: string, p: nat, delimiters: string)
    requires p <= |s| && NUL in delimiters
    ensures Concat(DelimTokens(s, p, delimiters)) == s[p..]
    decreases |s| - p
  {
    var e := UntilEnd(s, p, RuneSet(delimiters));
    var d := DelimiterAt(s, e, delimiters);
    if e == p && !d {
      assert p == |s|;
    } else {
      var f := if d then e + 1 else e;
      DelimTokensRound(s, p, delimiters, f);
      DelimTokensConcatAll(s, f, delimiters);
      assert s[p..] == s[p..f] + s[f..];
    }
  }

  /** Without NUL among the delimiters, the tokens from `p` rebuild the input up to its next NUL. */
  lemma {:induction false} DelimTokensConcatNul(s: string, p: nat, delimiters: string)
    requires p <= |s| && NUL !in delimiters
    ensures Concat(DelimTokens(s, p, delimiters)) == s[p..NulIndex(s, p)]
    decreases |s| - p
  {
    var e := UntilEnd(s, p, RuneSet(delimiters));
    var d := DelimiterAt(s, e, delimiters);
    if e == p && !d {
      UntilEndIs(s, p, {}, p);
    } else {
      var f := if d then e + 1 else e;
      DelimTokensRound(s, p, delimiters, f);
      DelimTokensConcatNul(s, f, delimiters);
      assert forall k :: p <= k < f ==> s[k] != NUL;
      NulIndexSkip(s, p, f);
      SliceJoin(s, p, f, NulIndex(s, f));
    }
  }

  /**
   * From position `p`, the tokens rebuild the rest of the input when NUL is
   * a delimiter, and the input up to its next NUL otherwise.
   */
  lemma DelimTokensConcat(s: string, p: nat, delimiters: string)
    requires p <= |s|
    ensures Concat(DelimTokens(s, p, delimiters)) == if NUL in delimiters then s[p..] else s[p..NulIndex(s, p)]
  {
    if NUL in delimiters {
      DelimTokensConcatAll(s, p, delimiters);
    } else {
      DelimTokensConcatNul(s, p, delimiters);
    }
  }

  /** The splitter rebuilds its input exactly when NUL is a delimiter or the input has no NUL. */
  lemma DelimTokensReconstruct(s: string, delimiters: string)
    ensures Concat(DelimTokens(s, 0, delimiters)) == s <==> NUL in delimiters || NUL !in s
  {
    DelimTokensConcat(s, 0, delimiters);
    if NUL !in delimiters {
      if NUL in s {
        var k :| 0 <= k < |s| && s[k] == NUL;
        assert NulIndex(s, 0) <= k;
      } else {
        UntilEndIs(s, 0, {}, |s|);
      }
    }
  }

  /** The splitter finds nothing exactly when the input is empty or starts with a NUL that is not a delimiter. */
  lemma DelimTokensEmpty(s: string, delimiters: string)
    ensures DelimTokens(s, 0, delimiters) == [] <==> s == "" || (s[0] == NUL && NUL !in delimiters)
  {
    DelimTokensStep(s, 0, delimiters);
  }

  /**
   * A leading delimiter is the first token, where SplitSpaces, which stops
   * when Until finds nothing, returns no tokens at all for a leading space.
   */
  lemma LeadingDelimiter(s: string, delimiters: string)
    requires s != "" && s[0] in delimiters
    ensures DelimTokens(s, 0, delimiters) != [] && DelimTokens(s, 0, delimiters)[0] == [s[0]]
    ensures s[0] == ' ' ==> SpaceTokens(s, 0) == []
  {
    UntilEndIs(s, 0, RuneSet(delimiters), 0);
    DelimTokensStep(s, 0, delimiters);
  }

  /** With ", " as delimiters, each delimiter rune is a token of its own. */
  lemma DelimTokensExample()
    ensures DelimTokens("a, b", 0, ", ") == ["a", ",", " ", "b"]
  {
    var s, ds := "a, b", ", ";
    assert RuneSet(ds) == {',', ' '};
    UntilEndIs(s, 0, {',', ' '}, 1);
    UntilEndIs(s, 2, {',', ' '}, 2);
    UntilEndIs(s, 3, {',', ' '}, 4);
    UntilEndIs(s, 4, {',', ' '}, 4);
    assert DelimTokens(s, 4, ds) == [];
    assert DelimTokens(s, 3, ds) == [s[3..4]] + [] + [];
    assert DelimTokens(s, 2, ds) == [] + [[s[2]]] + DelimTokens(s, 3, ds);
    assert DelimTokens(s, 0, ds) == [s[0..1]] + [[s[1]]] + DelimTokens(s, 2, ds);
    assert s[0..1] == "a" && [s[1]] == "," && [s[2]] == " " && s[3..4] == "b";
  }
}
