/**
 * The greedy diff engine. DiffSplit splits both inputs into tokens and
 * makes one forward pass over them, recording every token in a DiffSet as
 * Same, Added (only in B) or Removed (only in A). The pass is specified by
 * the function Align; the main theorem is that dropping the Added entries
 * gives back the tokens of A and dropping the Removed entries gives back
 * the tokens of B.
 */
module LineDiff {
  import opened Wrappers
  import opened TokenBuf

  datatype Tag = Same | Added | Removed

  /** One recorded segment with its tag. */
  datatype Entry = Entry(segment: string, tag: Tag)

  /** Every token of `tokens`, in order, tagged `tag`. */
  function Tagged(tag: Tag, tokens: seq<string>): (r: seq<Entry>)
    ensures |r| == |tokens|
  {
    if tokens == [] then [] else Tagged(tag, tokens[..|tokens| - 1]) + [Entry(tokens[|tokens| - 1], tag)]
  }

  /** `n` copies of `tag`. */
  function Repeat(tag: Tag, n: nat): (r: seq<Tag>)
    ensures |r| == n
  {
    if n == 0 then [] else Repeat(tag, n - 1) + [tag]
  }

  /** The entries of parallel segment and tag lists. */
  function Zip(segments: seq<string>, tags: seq<Tag>): (r: seq<Entry>)
    requires |segments| == |tags|
    ensures |r| == |segments|
  {
    if segments == [] then [] else Zip(segments[..|segments| - 1], tags[..|tags| - 1]) + [Entry(segments[|segments| - 1], tags[|tags| - 1])]
  }

  /** Tagging distributes over concatenation. */
  lemma {:induction false} TaggedAppend(tag: Tag, x: seq<string>, y: seq<string>)
    ensures Tagged(tag, x + y) == Tagged(tag, x) + Tagged(tag, y)
    decreases |y|
  {
    if y == [] {
      assert x + y == x;
    } else {
      var init, last := y[..|y| - 1], y[|y| - 1];
      assert x + y == (x + init) + [last];
      TaggedAppend(tag, x, init);
    }
  }

  /** Zipping distributes over concatenation of equally long lists. */
  lemma {:induction false} ZipAppend(s1: seq<string>, t1: seq<Tag>, s2: seq<string>, t2: seq<Tag>)
    requires |s1| == |t1| && |s2| == |t2|
    ensures Zip(s1 + s2, t1 + t2) == Zip(s1, t1) + Zip(s2, t2)
    decreases |s2|
  {
    if s2 == [] {
      assert s1 + s2 == s1 && t1 + t2 == t1;
    } else {
      var n := |s2| - 1;
      assert (s1 + s2)[..|s1 + s2| - 1] == s1 + s2[..n];
      assert (t1 + t2)[..|t1 + t2| - 1] == t1 + t2[..n];
      ZipAppend(s1, t1, s2[..n], t2[..n]);
    }
  }

  /** Zipping tokens with copies of one tag tags them all with it. */
  lemma {:induction false} ZipRepeat(tag: Tag, tokens: seq<string>)
    ensures Zip(tokens, Repeat(tag, |tokens|)) == Tagged(tag, tokens)
  {
    if tokens != [] {
      var n := |tokens| - 1;
      var tags := Repeat(tag, |tokens|);
      assert tags == Repeat(tag, n) + [tag];
      assert tags[..n] == Repeat(tag, n) && tags[n] == tag;
      ZipRepeat(tag, tokens[..n]);
      calc {
        Zip(tokens, tags);
        Zip(tokens[..n], tags[..n]) + [Entry(tokens[n], tags[n])];
        Tagged(tag, tokens[..n]) + [Entry(tokens[n], tag)];
      }
    }
  }

  /** The segments of the entries not tagged `drop`, in order. */
  function Project(es: seq<Entry>, drop: Tag): seq<string>
  {
    if es == [] then [] else (if es[0].tag == drop then [] else [es[0].segment]) + Project(es[1..], drop)
  }

  lemma {:induction false} ProjectAppend(x: seq<Entry>, y: seq<Entry>, drop: Tag)
    ensures Project(x + y, drop) == Project(x, drop) + Project(y, drop)
  {
    if x == [] {
      assert x + y == y;
    } else {
      assert (x + y)[1..] == x[1..] + y;
      ProjectAppend(x[1..], y, drop);
    }
  }

  /** Tagged tokens project to themselves, or to nothing when their tag is dropped. */
  lemma {:induction false} ProjectTagged(tag: Tag, tokens: seq<string>, drop: Tag)
    ensures Project(Tagged(tag, tokens), drop) == if tag == drop then [] else tokens
  {
    if tokens != [] {
      assert tokens == [tokens[0]] + tokens[1..];
      TaggedAppend(tag, [tokens[0]], tokens[1..]);
      assert Tagged(tag, [tokens[0]]) == [Entry(tokens[0], tag)];
      ProjectAppend(Tagged(tag, [tokens[0]]), Tagged(tag, tokens[1..]), drop);
      ProjectTagged(tag, tokens[1..], drop);
    }
  }

  /** How String writes one segment. */
  function RenderEntry(e: Entry): string
  {
    match e.tag
    case Same => e.segment
    case Added => "(++" + e.segment + "++)"
    case Removed => "(--" + e.segment + "--)"
  }

  /** The text String builds: every entry rendered, in order. */
  function Render(es: seq<Entry>): string
  {
    if es == [] then "" else Render(es[..|es| - 1]) + RenderEntry(es[|es| - 1])
  }

  lemma {:induction false} RenderAppend(x: seq<Entry>, y: seq<Entry>)
    ensures Render(x + y) == Render(x) + Render(y)
    decreases |y|
  {
    if y == [] {
      assert x + y == x;
    } else {
      var init, last := y[..|y| - 1], y[|y| - 1];
      assert x + y == (x + init) + [last];
      calc {
        Render(x + y);
        Render((x + init) + [last]);
        Render(x + init) + RenderEntry(last);
        { RenderAppend(x, init); }
        Render(x) + Render(init) + RenderEntry(last);
      }
    }
  }

  /** Same segments are written as they are, so an all-Same list renders to its tokens joined. */
  lemma {:induction false} RenderSame(tokens: seq<string>)
    ensures Render(Tagged(Same, tokens)) == Concat(tokens)
  {
    if tokens != [] {
      var init, last := tokens[..|tokens| - 1], tokens[|tokens| - 1];
      RenderSame(init);
      ConcatAppend(init, [last]);
      assert Concat([last]) == last + Concat([]);
      assert init + [last] == tokens;
    }
  }

  /** The append-only result of a diff: parallel lists of segments and tags. */
  class DiffSet {
    var segments: seq<string>
    var tags: seq<Tag>

    ghost predicate Valid()
      reads this
    {
      |segments| == |tags|
    }

    /** The recorded entries, in order. */
    function Entries(): seq<Entry>
      reads this
      requires Valid()
    {
      Zip(segments, tags)
    }

    constructor()
      ensures Valid() && segments == [] && tags == []
    {
      segments, tags := [], [];
    }

    /** Appends `tokens`, each tagged `tag`; nothing happens when there are none. */
    method Add(tag: Tag, tokens: seq<string>)
      requires Valid()
      modifies this
      ensures Valid()
      ensures segments == old(segments) + tokens
      ensures tags == old(tags) + Repeat(tag, |tokens|)
      ensures Entries() == old(Entries()) + Tagged(tag, tokens)
    {
      if |tokens| == 0 {
        return;
      }
      for i := 0 to |tokens|
        invariant segments == old(segments) + tokens[..i]
        invariant tags == old(tags)
      {
        segments := segments + [tokens[i]];
      }
      for i := 0 to |tokens|
        invariant segments == old(segments) + tokens
        invariant tags == old(tags) + Repeat(tag, i)
      {
        tags := tags + [tag];
      }
      ZipAppend(old(segments), old(tags), tokens, Repeat(tag, |tokens|));
      ZipRepeat(tag, tokens);
    }

    /** Appends `tokens` tagged Removed. */
    method AddRemoval(tokens: seq<string>)
      requires Valid()
      modifies this
      ensures Valid()
      ensures Entries() == old(Entries()) + Tagged(Removed, tokens)
    {
      Add(Removed, tokens);
    }

    /** Appends `tokens` tagged Added. */
    method AddAddition(tokens: seq<string>)
      requires Valid()
      modifies this
      ensures Valid()
      ensures Entries() == old(Entries()) + Tagged(Added, tokens)
    {
      Add(Added, tokens);
    }

    /** Appends `tokens` tagged Same. */
    method AddSimilarity(tokens: seq<string>)
      requires Valid()
      modifies this
      ensures Valid()
      ensures Entries() == old(Entries()) + Tagged(Same, tokens)
    {
      Add(Same, tokens);
    }

    /**
     * Writes every segment in order: Same as it is, Added as (++s++),
     * Removed as (--s--). The `continue` after an Added segment that
     * follows a Removed one comes after the write and changes nothing.
     */
    method String() returns (out: string)
      requires Valid()
      ensures out == Render(Entries())
    {
      out := "";
      for i := 0 to |segments|
        invariant out == Render(Zip(segments[..i], tags[..i]))
      {
        assert segments[..i + 1][..i] == segments[..i] && tags[..i + 1][..i] == tags[..i];
        ghost var next := out + RenderEntry(Entry(segments[i], tags[i]));
        assert next == Render(Zip(segments[..i + 1], tags[..i + 1]));
        var segment := segments[i];
        match tags[i]
        case Same =>
          out := out + segment;
          assert out == next;
        case Added =>
          out := out + ("(++" + segment + "++)");
          assert out == next;
          if i > 0 && tags[i - 1] == Removed {
            continue;
          }
        case Removed =>
          out := out + ("(--" + segment + "--)");
          assert out == next;
      }
      assert segments[..|segments|] == segments && tags[..|tags|] == tags;
    }
  }

  /** How a mismatch at (ai, bi) is resolved by looking ahead. */
  datatype Cross = BSide(j: nat) | ASide(j: nat) | NoMatch

  /** `ta[ai]` turns up `j` tokens further on in B. */
  predicate BResolves(ta: seq<string>, tb: seq<string>, ai: nat, bi: nat, j: nat)
    requires ai < |ta|
  {
    bi + j < |tb| && ta[ai] == tb[bi + j]
  }

  /** `tb[bi]` turns up `j` tokens further on in A. */
  predicate AResolves(ta: seq<string>, tb: seq<string>, ai: nat, bi: nat, j: nat)
    requires bi < |tb|
  {
    ai + j < |ta| && tb[bi] == ta[ai + j]
  }

  /**
   * The cross comparison from distance `j` up to `K`: the first distance at
   * which either side resolves, the B side checked before the A side at
   * each distance.
   */
  function CrossFrom(ta: seq<string>, tb: seq<string>, ai: nat, bi: nat, j: nat, K: nat): (c: Cross)
    requires ai < |ta| && bi < |tb|
    decreases K + 1 - j
    ensures c.BSide? ==> j <= c.j <= K && BResolves(ta, tb, ai, bi, c.j)
    ensures c.ASide? ==> j <= c.j <= K && AResolves(ta, tb, ai, bi, c.j) && !BResolves(ta, tb, ai, bi, c.j)
  {
    if j > K then NoMatch
    else if BResolves(ta, tb, ai, bi, j) then BSide(j)
    else if AResolves(ta, tb, ai, bi, j) then ASide(j)
    else CrossFrom(ta, tb, ai, bi, j + 1, K)
  }

  /** Below the distance CrossFrom settles on, neither side resolves. */
  lemma {:induction false} CrossFromMisses(ta: seq<string>, tb: seq<string>, ai: nat, bi: nat, j: nat, K: nat, k: nat)
    requires ai < |ta| && bi < |tb|
    requires j <= k <= K
    requires CrossFrom(ta, tb, ai, bi, j, K).NoMatch? || k < CrossFrom(ta, tb, ai, bi, j, K).j
    ensures !BResolves(ta, tb, ai, bi, k) && !AResolves(ta, tb, ai, bi, k)
    decreases k - j
  {
    if j < k {
      CrossFromMisses(ta, tb, ai, bi, j + 1, K, k);
    }
  }

  /** What one round records, and the positions in A and B it moves on to. */
  datatype Step = Step(recorded: seq<Entry>, na: nat, nb: nat)

  /**
   * One round at (ai, bi): a match, a B-side or A-side resolution found by
   * the cross comparison, or the straight diff.
   */
  function StepAt(ta: seq<string>, tb: seq<string>, K: nat, ai: nat, bi: nat): (s: Step)
    requires ai < |ta| && bi < |tb|
    ensures ai < s.na <= |ta| && bi < s.nb <= |tb|
  {
    if ta[ai] == tb[bi] then Step(Tagged(Same, [ta[ai]]), ai + 1, bi + 1)
    else match CrossFrom(ta, tb, ai, bi, 1, K)
      case BSide(j) => Step(Tagged(Added, tb[bi..bi + j]) + Tagged(Same, [ta[ai]]), ai + 1, bi + j + 1)
      case ASide(j) => Step(Tagged(Removed, ta[ai..ai + j]) + Tagged(Same, [tb[bi]]), ai + j + 1, bi + 1)
      case NoMatch => Step(Tagged(Removed, [ta[ai]]) + Tagged(Added, [tb[bi]]), ai + 1, bi + 1)
  }

  /**
   * The entries DiffSplit records from token positions `ai` in A and `bi`
   * in B on.
   */
  function AlignFrom(ta: seq<string>, tb: seq<string>, K: nat, ai: nat, bi: nat): seq<Entry>
    requires ai <= |ta| && bi <= |tb|
    decreases |ta| - ai + |tb| - bi
  {
    if ai == |ta| then Tagged(Added, tb[bi..])
    else if bi == |tb| then Tagged(Removed, ta[ai..])
    else
      var s := StepAt(ta, tb, K, ai, bi);
      s.recorded + AlignFrom(ta, tb, K, s.na, s.nb)
  }

  /** Away from the ends, a round is recorded and the rest follows from where it stops. */
  lemma AlignFromStep(ta: seq<string>, tb: seq<string>, K: nat, ai: nat, bi: nat)
    requires ai < |ta| && bi < |tb|
    ensures AlignFrom(ta, tb, K, ai, bi)
         == StepAt(ta, tb, K, ai, bi).recorded
          + AlignFrom(ta, tb, K, StepAt(ta, tb, K, ai, bi).na, StepAt(ta, tb, K, ai, bi).nb)
  {
  }

  /** Once both lists are used up nothing is left to record. */
  lemma AlignFromEnd(ta: seq<string>, tb: seq<string>, K: nat)
    ensures AlignFrom(ta, tb, K, |ta|, |tb|) == []
  {
    assert tb[|tb|..] == [];
  }

  /** The entries DiffSplit records for token lists `ta` and `tb` and look-ahead `K`. */
  function Align(ta: seq<string>, tb: seq<string>, K: nat): seq<Entry>
  {
    AlignFrom(ta, tb, K, 0, 0)
  }

  /**
   * A round consumes A's tokens from `ai` up to `na` and B's from `bi` up
   * to `nb`: dropping its Added entries leaves the first, dropping its
   * Removed entries leaves the second.
   */
  predicate StepConsumes(ta: seq<string>, tb: seq<string>, ai: nat, bi: nat, s: Step)
  {
    ai <= s.na <= |ta| && bi <= s.nb <= |tb| &&
    Project(s.recorded, Added) == ta[ai..s.na] && Project(s.recorded, Removed) == tb[bi..s.nb]
  }

  /** Every round consumes tokens of A and B as StepConsumes says. */
  lemma StepProjections(ta: seq<string>, tb: seq<string>, K: nat, ai: nat, bi: nat)
    requires ai < |ta| && bi < |tb|
    ensures StepConsumes(ta, tb, ai, bi, StepAt(ta, tb, K, ai, bi))
  {
    if ta[ai] == tb[bi] {
      MatchConsumes(ta, tb, K, ai, bi);
    } else {
      var c := CrossFrom(ta, tb, ai, bi, 1, K);
      if c.BSide? {
        BSideConsumes(ta, tb, K, ai, bi, c.j);
      } else if c.ASide? {
        ASideConsumes(ta, tb, K, ai, bi, c.j);
      } else {
        NoMatchConsumes(ta, tb, K, ai, bi);
      }
    }
  }

  /** A match records the common token as Same. */
  lemma MatchConsumes(ta: seq<string>, tb: seq<string>, K: nat, ai: nat, bi: nat)
    requires ai < |ta| && bi < |tb| && ta[ai] == tb[bi]
    ensures StepAt(ta, tb, K, ai, bi) == Step(Tagged(Same, [ta[ai]]), ai + 1, bi + 1)
    ensures StepConsumes(ta, tb, ai, bi, StepAt(ta, tb, K, ai, bi))
  {
    assert StepAt(ta, tb, K, ai, bi) == Step(Tagged(Same, [ta[ai]]), ai + 1, bi + 1);
    TwoRuns(Same, [ta[ai]], Same, []);
    assert Tagged(Same, [ta[ai]]) + Tagged(Same, []) == Tagged(Same, [ta[ai]]);
    assert ta[ai..ai + 1] == [ta[ai]] + [] && tb[bi..bi + 1] == [ta[ai]] + [];
  }

  /** A B-side resolution records B's skipped tokens as Added, then the common token. */
  lemma BSideConsumes(ta: seq<string>, tb: seq<string>, K: nat, ai: nat, bi: nat, j: nat)
    requires ai < |ta| && bi < |tb| && ta[ai] != tb[bi] && CrossFrom(ta, tb, ai, bi, 1, K) == BSide(j)
    ensures StepAt(ta, tb, K, ai, bi) == Step(Tagged(Added, tb[bi..bi + j]) + Tagged(Same, [ta[ai]]), ai + 1, bi + j + 1)
    ensures StepConsumes(ta, tb, ai, bi, StepAt(ta, tb, K, ai, bi))
  {
    assert StepAt(ta, tb, K, ai, bi) == Step(Tagged(Added, tb[bi..bi + j]) + Tagged(Same, [ta[ai]]), ai + 1, bi + j + 1);
    TwoRuns(Added, tb[bi..bi + j], Same, [ta[ai]]);
    assert ta[ai..ai + 1] == [] + [ta[ai]];
    assert tb[bi..bi + j + 1] == tb[bi..bi + j] + [ta[ai]];
  }

  /** An A-side resolution records A's skipped tokens as Removed, then the common token. */
  lemma ASideConsumes(ta: seq<string>, tb: seq<string>, K: nat, ai: nat, bi: nat, j: nat)
    requires ai < |ta| && bi < |tb| && ta[ai] != tb[bi] && CrossFrom(ta, tb, ai, bi, 1, K) == ASide(j)
    ensures StepAt(ta, tb, K, ai, bi) == Step(Tagged(Removed, ta[ai..ai + j]) + Tagged(Same, [tb[bi]]), ai + j + 1, bi + 1)
    ensures StepConsumes(ta, tb, ai, bi, StepAt(ta, tb, K, ai, bi))
  {
    assert StepAt(ta, tb, K, ai, bi) == Step(Tagged(Removed, ta[ai..ai + j]) + Tagged(Same, [tb[bi]]), ai + j + 1, bi + 1);
    TwoRuns(Removed, ta[ai..ai + j], Same, [tb[bi]]);
    assert tb[bi..bi + 1] == [] + [tb[bi]];
    assert ta[ai..ai + j + 1] == ta[ai..ai + j] + [tb[bi]];
  }

  /** The straight diff records A's token as Removed and B's as Added. */
  lemma NoMatchConsumes(ta: seq<string>, tb: seq<string>, K: nat, ai: nat, bi: nat)
    requires ai < |ta| && bi < |tb| && ta[ai] != tb[bi] && CrossFrom(ta, tb, ai, bi, 1, K) == NoMatch
    ensures StepAt(ta, tb, K, ai, bi) == Step(Tagged(Removed, [ta[ai]]) + Tagged(Added, [tb[bi]]), ai + 1, bi + 1)
    ensures StepConsumes(ta, tb, ai, bi, StepAt(ta, tb, K, ai, bi))
  {
    assert StepAt(ta, tb, K, ai, bi) == Step(Tagged(Removed, [ta[ai]]) + Tagged(Added, [tb[bi]]), ai + 1, bi + 1);
    TwoRuns(Removed, [ta[ai]], Added, [tb[bi]]);
    assert ta[ai..ai + 1] == [ta[ai]] + [] && tb[bi..bi + 1] == [] + [tb[bi]];
  }

  /** Projections of two runs of tagged tokens, one after the other. */
  lemma TwoRuns(t1: Tag, x: seq<string>, t2: Tag, y: seq<string>)
    ensures Project(Tagged(t1, x) + Tagged(t2, y), Added)
         == (if t1 == Added then [] else x) + (if t2 == Added then [] else y)
    ensures Project(Tagged(t1, x) + Tagged(t2, y), Removed)
         == (if t1 == Removed then [] else x) + (if t2 == Removed then [] else y)
  {
    ProjectAppend(Tagged(t1, x), Tagged(t2, y), Added);
    ProjectAppend(Tagged(t1, x), Tagged(t2, y), Removed);
    ProjectTagged(t1, x, Added);
    ProjectTagged(t2, y, Added);
    ProjectTagged(t1, x, Removed);
    ProjectTagged(t2, y, Removed);
  }

  /** A part that projects to `t[p..q]` followed by one that projects to `t[q..]`. */
  lemma ProjectJoin(x: seq<Entry>, rest: seq<Entry>, drop: Tag, t: seq<string>, p: nat, q: nat)
    requires p <= q <= |t|
    requires Project(x, drop) == t[p..q] && Project(rest, drop) == t[q..]
    ensures Project(x + rest, drop) == t[p..]
  {
    ProjectAppend(x, rest, drop);
    assert t[p..] == t[p..q] + t[q..];
  }

  /**
   * Nothing is lost or invented: from any positions on, the entries not
   * Added are A's remaining tokens and the entries not Removed are B's.
   */
  lemma {:induction false} AlignFromProjections(ta: seq<string>, tb: seq<string>, K: nat, ai: nat, bi: nat)
    requires ai <= |ta| && bi <= |tb|
    ensures Project(AlignFrom(ta, tb, K, ai, bi), Added) == ta[ai..]
    ensures Project(AlignFrom(ta, tb, K, ai, bi), Removed) == tb[bi..]
    decreases |ta| - ai + |tb| - bi
  {
    if ai == |ta| {
      ProjectTagged(Added, tb[bi..], Added);
      ProjectTagged(Added, tb[bi..], Removed);
    } else if bi == |tb| {
      ProjectTagged(Removed, ta[ai..], Added);
      ProjectTagged(Removed, ta[ai..], Removed);
    } else {
      var s := StepAt(ta, tb, K, ai, bi);
      StepProjections(ta, tb, K, ai, bi);
      AlignFromProjections(ta, tb, K, s.na, s.nb);
      ProjectJoin(s.recorded, AlignFrom(ta, tb, K, s.na, s.nb), Added, ta, ai, s.na);
      ProjectJoin(s.recorded, AlignFrom(ta, tb, K, s.na, s.nb), Removed, tb, bi, s.nb);
    }
  }

  /**
   * The diff is lossless: dropping its Added entries gives A's tokens back
   * and dropping its Removed entries gives B's.
   */
  lemma AlignProjections(ta: seq<string>, tb: seq<string>, K: nat)
    ensures Project(Align(ta, tb, K), Added) == ta
    ensures Project(Align(ta, tb, K), Removed) == tb
  {
    AlignFromProjections(ta, tb, K, 0, 0);
    assert ta[0..] == ta && tb[0..] == tb;
  }

  /** Identical token lists are recorded as Same throughout. */
  lemma {:induction false} AlignFromIdentical(ta: seq<string>, K: nat, i: nat)
    requires i <= |ta|
    ensures AlignFrom(ta, ta, K, i, i) == Tagged(Same, ta[i..])
    decreases |ta| - i
  {
    if i == |ta| {
      assert ta[i..] == [];
    } else {
      AlignFromIdentical(ta, K, i + 1);
      TaggedAppend(Same, [ta[i]], ta[i + 1..]);
      assert ta[i..] == [ta[i]] + ta[i + 1..];
    }
  }

  /** Diffing a token list against itself renders those tokens unchanged. */
  lemma RenderIdentical(ta: seq<string>, K: nat)
    ensures Align(ta, ta, K) == Tagged(Same, ta)
    ensures Render(Align(ta, ta, K)) == Concat(ta)
  {
    AlignFromIdentical(ta, K, 0);
    assert ta[0..] == ta;
    RenderSame(ta);
  }

  /**
   * Diffing a text against itself with SplitSpaces gives back the text,
   * as long as SplitSpaces rebuilds it: it is empty or does not start with
   * a space, and it has no NUL rune.
   */
  lemma DiffIdentical(a: string, K: nat)
    requires (a == "" || a[0] != ' ') && NUL !in a
    ensures Render(Align(SpaceTokens(a, 0), SpaceTokens(a, 0), K)) == a
  {
    RenderIdentical(SpaceTokens(a, 0), K);
    SpaceTokensReconstruct(a);
  }

  /**
   * The "Transposition" case of the diff tests, on the tokens SplitSpaces
   * gives: "a" and the space after it are Removed, "string here" is Same,
   * and the trailing space and "a" are Added, which String writes as
   * "(--a--)(-- --)string here(++ ++)(++a++)".
   */
  lemma TranspositionExample()
    ensures Align(["a", " ", "string", " ", "here"], ["string", " ", "here", " ", "a"], 3)
         == [Entry("a", Removed), Entry(" ", Removed), Entry("string", Same), Entry(" ", Same),
             Entry("here", Same), Entry(" ", Added), Entry("a", Added)]
  {
    var ta, tb := ["a", " ", "string", " ", "here"], ["string", " ", "here", " ", "a"];
    assert CrossFrom(ta, tb, 0, 0, 2, 3) == ASide(2);
    assert CrossFrom(ta, tb, 0, 0, 1, 3) == ASide(2);
    var tail := Tagged(Added, tb[3..]);
    assert tb[3..] == [" ", "a"];
    assert Tagged(Added, [" "]) == [Entry(" ", Added)];
    assert [" ", "a"][..1] == [" "];
    assert tail == [Entry(" ", Added), Entry("a", Added)];
    assert AlignFrom(ta, tb, 3, 5, 3) == tail;
    assert AlignFrom(ta, tb, 3, 4, 2) == Tagged(Same, ["here"]) + tail;
    assert AlignFrom(ta, tb, 3, 3, 1) == Tagged(Same, [" "]) + (Tagged(Same, ["here"]) + tail);
    assert ta[0..2] == ["a", " "];
    assert Tagged(Removed, ["a"]) == [Entry("a", Removed)];
    assert ["a", " "][..1] == ["a"];
  }

  /**
   * The cross comparison of DiffSplit: for each distance `j` from 1 to `K`
   * it checks the B side and then the A side, and stops at the first that
   * resolves the mismatch at (ai, bi).
   */
  method CrossCompare(ta: seq<string>, tb: seq<string>, ai: nat, bi: nat, K: nat) returns (c: Cross)
    requires ai < |ta| && bi < |tb|
    ensures c == CrossFrom(ta, tb, ai, bi, 1, K)
  {
    for j := 1 to K + 1
      invariant CrossFrom(ta, tb, ai, bi, 1, K) == CrossFrom(ta, tb, ai, bi, j, K)
    {
      if bi + j < |tb| && ta[ai] == tb[bi + j] {
        return BSide(j);
      }
      if ai + j < |ta| && tb[bi] == ta[ai + j] {
        return ASide(j);
      }
    }
    return NoMatch;
  }

  /**
   * One round of DiffSplit once neither side is exhausted: the comparison,
   * then the cross comparison, then the straight diff. It returns how far
   * the round moves aOffset and bOffset.
   */
  method Round(ds: DiffSet, ta: seq<string>, tb: seq<string>, K: nat, ai: nat, bi: nat) returns (da: nat, db: nat)
    requires ds.Valid() && ai < |ta| && bi < |tb|
    modifies ds
    ensures ds.Valid() && ds.Entries() == old(ds.Entries()) + StepAt(ta, tb, K, ai, bi).recorded
    ensures StepAt(ta, tb, K, ai, bi).na == ai + 1 + da && StepAt(ta, tb, K, ai, bi).nb == bi + 1 + db
  {
    // Comparisons
    if ta[ai] == tb[bi] {
      ds.AddSimilarity([ta[ai]]);
      return 0, 0;
    }

    // Cross comparison
    var c := CrossCompare(ta, tb, ai, bi, K);
    match c
    case BSide(j) =>
      ds.AddAddition(tb[bi..bi + j]);
      ds.AddSimilarity([ta[ai]]);
      da, db := 0, j;
    case ASide(j) =>
      ds.AddRemoval(ta[ai..ai + j]);
      ds.AddSimilarity([tb[bi]]);
      da, db := j, 0;
    case NoMatch =>
      // Straight diff
      ds.AddRemoval([ta[ai]]);
      ds.AddAddition([tb[bi]]);
      da, db := 0, 0;
  }

  /**
   * Splits `a` and `b` with `split` and records the greedy alignment of
   * their tokens. A missing splitter is refused before any work is done.
   */
  method DiffSplit(a: string, b: string, split: Option<string -> seq<string>>, K: nat) returns (ds: DiffSet)
    requires split.Some?
    ensures fresh(ds) && ds.Valid()
    ensures ds.Entries() == Align(split.value(a), split.value(b), K)
  {
    ds := new DiffSet();
    var ta, tb := split.value(a), split.value(b);
    var aOffset, bOffset := 0, 0;
    var maxi := if |ta| >= |tb| then |ta| else |tb|;
    // The pass is at positions (ga, gb); `rest` is what it has still to
    // record there and `whole` is all it records.
    ghost var ga, gb := 0, 0;
    ghost var whole := Align(ta, tb, K);
    ghost var rest := whole;
    AlignFromEnd(ta, tb, K);
    for i := 0 to maxi
      invariant ds.Valid()
      invariant 0 <= aOffset && 0 <= bOffset && ga == i + aOffset && gb == i + bOffset
      invariant ga <= |ta| && gb <= |tb| && rest == AlignFrom(ta, tb, K, ga, gb)
      invariant ds.Entries() + rest == whole
    {
      var ai, bi := i + aOffset, i + bOffset;

      // Capacity diffs
      if ai >= |ta| {
        ds.AddAddition(tb[bi..]);
        assert ds.Entries() == whole;
        break;
      }
      if bi >= |tb| {
        ds.AddRemoval(ta[ai..]);
        assert ds.Entries() == whole;
        break;
      }

      ghost var done := ds.Entries();
      ghost var s := StepAt(ta, tb, K, ai, bi);
      AlignFromStep(ta, tb, K, ai, bi);
      var da, db := Round(ds, ta, tb, K, ai, bi);
      aOffset, bOffset := aOffset + da, bOffset + db;
      ga, gb := s.na, s.nb;
      rest := AlignFrom(ta, tb, K, ga, gb);
      AppendAssoc(done, s.recorded, rest);
    }
  }

  /** DiffSplit with the default splitter, SplitSpaces. */
  method Diff(a: string, b: string, K: nat) returns (ds: DiffSet)
    ensures fresh(ds) && ds.Valid()
    ensures ds.Entries() == Align(SpaceTokens(a, 0), SpaceTokens(b, 0), K)
  {
    ds := DiffSplit(a, b, Some(s => SpaceTokens(s, 0)), K);
  }
}
