/**
 * The token reader of linediff: a cursor over the runes of one input with
 * three scanning primitives (AcceptToken, Accept, Until), and the default
 * space splitter built on them.
 *
 * The rune buffer the reader sits on is modelled as the whole input, a
 * `string` (runes as `char`), and a cursor `pos` into it. The functions
 * below describe scans by the position where they stop.
 */
module TokenBuf {
  import opened Wrappers

  /** The NUL rune; Until stops at it whatever its list says. */
  const NUL: char := 0 as char

  /** The match set Accept and Until build from the runes of their list. */
  function RuneSet(list: string): set<char>
  {
    set r | r in list
  }

  /** `s` holds `t` at position `p`. */
  predicate At(s: string, p: nat, t: string)
  {
    p + |t| <= |s| && s[p..p + |t|] == t
  }

  /** Where the longest run of runes in `matchSet` that starts at `p` ends. */
  function AcceptEnd(s: string, p: nat, matchSet: set<char>): (e: nat)
    requires p <= |s|
    ensures p <= e <= |s|
    ensures forall k :: p <= k < e ==> s[k] in matchSet
    ensures e == |s| || s[e] !in matchSet
    decreases |s| - p
  {
    if p == |s| || s[p] !in matchSet then p else AcceptEnd(s, p + 1, matchSet)
  }

  /** Where the longest run of runes that are neither in `matchSet` nor NUL, starting at `p`, ends. */
  function UntilEnd(s: string, p: nat, matchSet: set<char>): (e: nat)
    requires p <= |s|
    ensures p <= e <= |s|
    ensures forall k :: p <= k < e ==> s[k] != NUL && s[k] !in matchSet
    ensures e == |s| || s[e] == NUL || s[e] in matchSet
    decreases |s| - p
  {
    if p == |s| || s[p] == NUL || s[p] in matchSet then p else UntilEnd(s, p + 1, matchSet)
  }

  /** The index of the first NUL rune of `s` at or after `p`, or `|s|` when there is none. */
  function NulIndex(s: string, p: nat): nat
    requires p <= |s|
  {
    UntilEnd(s, p, {})
  }

  /** UntilEnd is the only end with its two properties. */
  lemma UntilEndIs(s: string, p: nat, matchSet: set<char>, e: nat)
    requires p <= e <= |s|
    requires forall k :: p <= k < e ==> s[k] != NUL && s[k] !in matchSet
    requires e == |s| || s[e] == NUL || s[e] in matchSet
    ensures UntilEnd(s, p, matchSet) == e
  {
  }

  /** AcceptEnd is the only end with its two properties. */
  lemma AcceptEndIs(s: string, p: nat, matchSet: set<char>, e: nat)
    requires p <= e <= |s|
    requires forall k :: p <= k < e ==> s[k] in matchSet
    requires e == |s| || s[e] !in matchSet
    ensures AcceptEnd(s, p, matchSet) == e
  {
  }

  /** The tokens joined back into one string. */
  function Concat(tokens: seq<string>): string
  {
    if tokens == [] then "" else tokens[0] + Concat(tokens[1..])
  }

  lemma {:induction false} ConcatAppend(x: seq<string>, y: seq<string>)
    ensures Concat(x + y) == Concat(x) + Concat(y)
  {
    if x == [] {
      assert x + y == y;
    } else {
      assert (x + y)[1..] == x[1..] + y;
      ConcatAppend(x[1..], y);
    }
  }

  lemma AppendAssoc<T>(a: seq<T>, b: seq<T>, c: seq<T>)
    ensures a + b + c == a + (b + c)
  {
  }

  /** Two adjacent slices of a string make up the slice that covers both. */
  lemma SliceJoin(s: string, p: nat, f: nat, n: nat)
    requires p <= f <= n <= |s|
    ensures s[p..f] + s[f..n] == s[p..n]
  {
  }

  /** `m` one-space tokens. */
  function Spaces(m: nat): (r: seq<string>)
    ensures |r| == m
    ensures forall i :: 0 <= i < m ==> r[i] == " "
  {
    if m == 0 then [] else Spaces(m - 1) + [" "]
  }

  lemma {:induction false} ConcatSpaces(m: nat)
    ensures |Concat(Spaces(m))| == m
    ensures forall k :: 0 <= k < m ==> Concat(Spaces(m))[k] == ' '
  {
    if m > 0 {
      ConcatAppend(Spaces(m - 1), [" "]);
      assert Concat([" "]) == " " + Concat([]);
      ConcatSpaces(m - 1);
    }
  }

  /**
   * The tokens SplitSpaces returns for the input from position `p` on: a
   * round reads a word with Until(" "), ends the whole split when that
   * finds nothing, and otherwise emits the word and then one " " token per
   * space that follows it.
   */
  function SpaceTokens(s: string, p: nat): seq<string>
    requires p <= |s|
    decreases |s| - p
  {
    var e := UntilEnd(s, p, {' '});
    if e == p then []
    else
      var f := AcceptEnd(s, e, {' '});
      [s[p..e]] + Spaces(f - e) + SpaceTokens(s, f)
  }

  /** One round of SpaceTokens: the word Until finds, the spaces after it, and the rest. */
  lemma SpaceTokensStep(s: string, p: nat)
    requires p <= |s|
    ensures var e := UntilEnd(s, p, {' '});
            var f := AcceptEnd(s, e, {' '});
            SpaceTokens(s, p) == if e == p then [] else [s[p..e]] + Spaces(f - e) + SpaceTokens(s, f)
  {
  }

  /** A reader over the runes of one input, positioned at `pos`. */
  class TokenReader {
    /** Every rune the underlying reader yields, in order. */
    const input: string
    /** How many runes have been read and not unread. */
    var pos: nat

    ghost predicate Valid()
      reads this
    {
      pos <= |input|
    }

    /** A reader over a string (NewStringTokenReader). */
    constructor FromString(s: string)
      ensures Valid() && input == s && pos == 0
    {
      input := s;
      pos := 0;
    }

    /** A reader over an io.Reader, which must not be nil (NewTokenReaderWithSize). */
    constructor FromReader(r: Option<string>)
      requires r.Some?
      ensures Valid() && input == r.value && pos == 0
    {
      input := r.value;
      pos := 0;
    }

    /** Reads the next rune, or reports the end of the input. */
    method ReadRune() returns (r: char, eof: bool)
      requires Valid()
      modifies this
      ensures Valid()
      ensures eof <==> old(pos) == |input|
      ensures !eof ==> r == input[old(pos)] && pos == old(pos) + 1
      ensures eof ==> pos == old(pos)
    {
      if pos == |input| {
        return NUL, true;
      }
      r, eof := input[pos], false;
      pos := pos + 1;
    }

    /** Steps back over the last rune read. */
    method UnreadRune()
      requires Valid() && 0 < pos
      modifies this
      ensures Valid() && pos == old(pos) - 1
    {
      pos := pos - 1;
    }

    /** Steps back over the last `n` runes read. */
    method UnreadNumRunes(n: nat)
      requires Valid() && n <= pos
      modifies this
      ensures Valid() && pos == old(pos) - n
    {
      pos := pos - n;
    }

    /**
     * Reads exactly `token` when the input continues with it; otherwise
     * returns ("", false) with every rune it read unread again.
     */
    method AcceptToken(token: string) returns (t: string, found: bool)
      requires Valid()
      modifies this
      ensures Valid()
      ensures found <==> At(input, old(pos), token)
      ensures found ==> t == token && pos == old(pos) + |token|
      ensures !found ==> t == "" && pos == old(pos)
    {
      var i := 0;
      while i < |token|
        invariant Valid()
        invariant 0 <= i <= |token|
        invariant pos == old(pos) + i
        invariant input[old(pos)..pos] == token[..i]
      {
        var r, eof := ReadRune();
        if eof {
          // Only i runes were read at this point; the source passes i + 1
          // to UnreadNumRunes here. Its documented promise, and the way
          // SplitSpaces relies on it at the end of the input, is that the
          // cursor ends where it started, which unreading i runes does.
          UnreadNumRunes(i);
          return "", false;
        }
        if token[i] != r {
          assert old(pos) + |token| <= |input| ==> input[old(pos)..old(pos) + |token|][i] == r;
          UnreadNumRunes(i + 1);
          return "", false;
        }
        i := i + 1;
      }
      return token, true;
    }

    /**
     * Reads the longest run of runes that are in `list`; the first rune
     * that is not is left unread.
     */
    method Accept(list: string) returns (t: string, found: bool)
      requires Valid()
      modifies this
      ensures Valid()
      ensures pos == AcceptEnd(input, old(pos), RuneSet(list))
      ensures t == input[old(pos)..pos]
      ensures found <==> t != ""
    {
      var matchSet := RuneSet(list);
      var buf := "";
      while true
        invariant Valid() && old(pos) <= pos
        invariant buf == input[old(pos)..pos]
        invariant forall k :: old(pos) <= k < pos ==> input[k] in matchSet
        decreases |input| - pos
      {
        var r, eof := ReadRune();
        if eof {
          AcceptEndIs(input, old(pos), matchSet, pos);
          return buf, |buf| > 0;
        }
        if r in matchSet {
          buf := buf + [r];
          continue;
        }
        UnreadRune();
        AcceptEndIs(input, old(pos), matchSet, pos);
        return buf, |buf| > 0;
      }
    }

    /**
     * Reads the longest run of runes that are neither in `list` nor NUL;
     * the rune that stops it is left unread.
     */
    method Until(list: string) returns (t: string, found: bool)
      requires Valid()
      modifies this
      ensures Valid()
      ensures pos == UntilEnd(input, old(pos), RuneSet(list))
      ensures t == input[old(pos)..pos]
      ensures found <==> t != ""
    {
      var matchSet := RuneSet(list);
      var buf := "";
      while true
        invariant Valid() && old(pos) <= pos
        invariant buf == input[old(pos)..pos]
        invariant forall k :: old(pos) <= k < pos ==> input[k] != NUL && input[k] !in matchSet
        decreases |input| - pos
      {
        var r, eof := ReadRune();
        if eof {
          UntilEndIs(input, old(pos), matchSet, pos);
          return buf, |buf| > 0;
        }
        if r != NUL && r !in matchSet {
          buf := buf + [r];
          continue;
        }
        UnreadRune();
        UntilEndIs(input, old(pos), matchSet, pos);
        return buf, |buf| > 0;
      }
    }
  }

  lemma SpaceRuneSet()
    ensures RuneSet(" ") == {' '}
  {
  }

  /**
   * The inner loop of SplitSpaces: accepts " " for as long as the input
   * continues with a space, one token per space.
   */
  method AcceptSpaces(tr: TokenReader) returns (spaces: seq<string>)
    requires tr.Valid()
    modifies tr
    ensures tr.Valid()
    ensures tr.pos == AcceptEnd(tr.input, old(tr.pos), {' '})
    ensures spaces == Spaces(tr.pos - old(tr.pos))
  {
    spaces := [];
    while true
      invariant tr.Valid()
      invariant old(tr.pos) <= tr.pos
      invariant forall k :: old(tr.pos) <= k < tr.pos ==> tr.input[k] == ' '
      invariant spaces == Spaces(tr.pos - old(tr.pos))
      decreases |tr.input| - tr.pos
    {
      var space, found := tr.AcceptToken(" ");
      if !found {
        break;
      }
      assert tr.input[tr.pos - 1..tr.pos] == " ";
      spaces := spaces + [space];
    }
    AcceptEndIs(tr.input, old(tr.pos), {' '}, tr.pos);
  }

  /** The default splitter: words and single spaces, as SpaceTokens describes. */
  method SplitSpaces(s: string) returns (tokens: seq<string>)
    ensures tokens == SpaceTokens(s, 0)
  {
    SpaceRuneSet();
    var tr := new TokenReader.FromString(s);
    tokens := [];
    while true
      invariant tr.Valid() && tr.input == s
      invariant tokens + SpaceTokens(s, tr.pos) == SpaceTokens(s, 0)
      decreases |s| - tr.pos
    {
      ghost var start, before := tr.pos, tokens;
      var token, found := tr.Until(" ");
      if !found {
        SpaceTokensStep(s, start);
        return;
      }
      tokens := tokens + [token];
      var spaces := AcceptSpaces(tr);
      tokens := tokens + spaces;
      SpaceTokensStep(s, start);
      assert SpaceTokens(s, start) == [token] + spaces + SpaceTokens(s, tr.pos);
      AppendAssoc(before, [token], spaces);
      AppendAssoc(before, [token] + spaces, SpaceTokens(s, tr.pos));
    }
  }

  /** SpaceTokens finds nothing exactly when the input is empty or starts with a space or NUL. */
  lemma SpaceTokensEmpty(s: string)
    ensures SpaceTokens(s, 0) == [] <==> s == "" || s[0] == ' ' || s[0] == NUL
  {
  }

  /** A token SplitSpaces may emit: one space, or a non-empty word with no space and no NUL. */
  predicate SpaceToken(t: string)
  {
    t == " " || (t != "" && ' ' !in t && NUL !in t)
  }

  /** Every token is a single space or a non-empty word free of spaces and NUL. */
  lemma {:induction false} SpaceTokensShape(s: string, p: nat)
    requires p <= |s|
    ensures forall t :: t in SpaceTokens(s, p) ==> SpaceToken(t)
    decreases |s| - p
  {
    var e := UntilEnd(s, p, {' '});
    if e > p {
      var f := AcceptEnd(s, e, {' '});
      var rest := SpaceTokens(s, f);
      SpaceTokensShape(s, f);
      assert SpaceTokens(s, p) == [s[p..e]] + Spaces(f - e) + rest;
      forall t | t in SpaceTokens(s, p)
        ensures SpaceToken(t)
      {
        if t !in rest && t !in Spaces(f - e) {
          assert t == s[p..e];
          assert forall k :: 0 <= k < |t| ==> t[k] == s[p + k];
        }
      }
    }
  }

  /** A word followed by the spaces after it rebuilds the input they were read from. */
  lemma ConcatWordSpaces(s: string, p: nat, e: nat, f: nat)
    requires p <= e <= f <= |s|
    requires forall k :: e <= k < f ==> s[k] == ' '
    ensures Concat([s[p..e]] + Spaces(f - e)) == s[p..f]
  {
    ConcatAppend([s[p..e]], Spaces(f - e));
    ConcatSpaces(f - e);
    assert Concat([s[p..e]]) == s[p..e] + Concat([]);
  }

  /** One round of SpaceTokens rebuilds the word and the spaces it read. */
  lemma SpaceTokensRound(s: string, p: nat)
    requires p <= |s| && UntilEnd(s, p, {' '}) > p
    ensures Concat(SpaceTokens(s, p))
         == s[p..AcceptEnd(s, UntilEnd(s, p, {' '}), {' '})]
          + Concat(SpaceTokens(s, AcceptEnd(s, UntilEnd(s, p, {' '}), {' '})))
  {
    var e := UntilEnd(s, p, {' '});
    var f := AcceptEnd(s, e, {' '});
    var rest := SpaceTokens(s, f);
    calc {
      Concat(SpaceTokens(s, p));
      Concat([s[p..e]] + Spaces(f - e) + rest);
      { ConcatAppend([s[p..e]] + Spaces(f - e), rest); }
      Concat([s[p..e]] + Spaces(f - e)) + Concat(rest);
      { ConcatWordSpaces(s, p, e, f); }
      s[p..f] + Concat(rest);
    }
  }

  /**
   * From position `p`, the tokens rebuild the input up to its next NUL, or
   * nothing at all when the input there starts with a space.
   */
  lemma {:induction false} SpaceTokensConcat(s: string, p: nat)
    requires p <= |s|
    ensures Concat(SpaceTokens(s, p)) == if p < |s| && s[p] == ' ' then "" else s[p..NulIndex(s, p)]
    decreases |s| - p
  {
    var e := UntilEnd(s, p, {' '});
    if e == p {
      assert p < |s| && s[p] != ' ' ==> s[p] == NUL;
    } else {
      var f := AcceptEnd(s, e, {' '});
      SpaceTokensRound(s, p);
      if e < |s| && s[e] == NUL {
        UntilEndIs(s, p, {}, e);
        assert f == e && SpaceTokens(s, f) == [];
        assert Concat(SpaceTokens(s, p)) == s[p..NulIndex(s, p)];
      } else {
        SpaceTokensConcat(s, f);
        var n := NulIndex(s, f);
        UntilEndIs(s, p, {}, n);
        SliceJoin(s, p, f, n);
        assert Concat(SpaceTokens(s, p)) == s[p..NulIndex(s, p)];
      }
    }
  }

  /**
   * SplitSpaces rebuilds its input exactly when the input is empty or
   * does not start with a space, and has no NUL rune.
   */
  lemma SpaceTokensReconstruct(s: string)
    ensures Concat(SpaceTokens(s, 0)) == s <==> (s == "" || s[0] != ' ') && NUL !in s
  {
    SpaceTokensConcat(s, 0);
    if NUL in s {
      var k :| 0 <= k < |s| && s[k] == NUL;
      assert NulIndex(s, 0) <= k;
    } else {
      UntilEndIs(s, 0, {}, |s|);
    }
  }

  /** The "Hello space world" case of the splitter's tests. */
  lemma SpaceTokensExample()
    ensures SpaceTokens("hello  world", 0) == ["hello", " ", " ", "world"]
  {
    var s := "hello  world";
    UntilEndIs(s, 0, {' '}, 5);
    AcceptEndIs(s, 5, {' '}, 7);
    UntilEndIs(s, 7, {' '}, 12);
    AcceptEndIs(s, 12, {' '}, 12);
    assert SpaceTokens(s, 12) == [];
    assert SpaceTokens(s, 7) == [s[7..12]] + Spaces(0) + [];
    assert SpaceTokens(s, 0) == [s[0..5]] + Spaces(2) + SpaceTokens(s, 7);
    assert s[0..5] == "hello" && s[7..12] == "world";
    assert Spaces(2) == [" ", " "];
  }
}
