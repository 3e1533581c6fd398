/** The chunker of index.js (`chunkText`): the text is split into sentences by the
    regular expression /[^\.!\?]+[\.!\?]+/g, and the sentences are packed greedily,
    in order, into chunks of at most `maxTokens` characters. */
module Chunker {
  import opened Seqs

  /** The three characters the regular expression treats as ending a sentence. */
  predicate IsTerminal(c: char)
  {
    c == '.' || c == '!' || c == '?'
  }

  /** Length of the longest prefix of `s` whose characters are terminal
      (`terminal == true`) or non-terminal (`terminal == false`). */
  function RunLength(s: seq<char>, terminal: bool): (n: nat)
    ensures n <= |s|
  {
    if s == [] || IsTerminal(s[0]) != terminal then 0 else 1 + RunLength(s[1..], terminal)
  }

  /** `RunLength` is the length of the maximal run: every character before it is
      of the requested class, and the character at it (if any) is not. */
  lemma {:induction false} RunLengthMaximal(s: seq<char>, terminal: bool)
    ensures forall i :: 0 <= i < RunLength(s, terminal) ==> IsTerminal(s[i]) == terminal
    ensures RunLength(s, terminal) < |s| ==> IsTerminal(s[RunLength(s, terminal)]) != terminal
  {
    if s != [] && IsTerminal(s[0]) == terminal {
      RunLengthMaximal(s[1..], terminal);
    }
  }

  /** What one match of the regular expression looks like: a non-empty run of
      non-terminal characters followed by a non-empty run of terminal ones. */
  predicate IsSentence(x: seq<char>)
  {
    2 <= |x| && !IsTerminal(x[0]) && IsTerminal(x[|x| - 1]) &&
    forall i :: 0 <= i < |x| - 1 && IsTerminal(x[i]) ==> IsTerminal(x[i + 1])
  }

  /** The matches of /[^\.!\?]+[\.!\?]+/g over `s`, in order (`|| []` included:
      no match gives the empty list). Terminal characters where no match can
      start are skipped; `Matches` takes it from there. */
  function Sentences(s: seq<char>): seq<seq<char>>
    decreases |s|, 1
  {
    Matches(s[RunLength(s, true)..])
  }

  /** The matches over `t`, which is empty or starts with a non-terminal
      character: a match is the maximal non-terminal run followed by the
      maximal terminal run; a non-terminal run that reaches the end of the
      text cannot match, and that trailing fragment ends the search. */
  function Matches(t: seq<char>): seq<seq<char>>
    decreases |t|, 0
  {
    var body := RunLength(t, false);
    if body == |t| then []
    else
      var u := t[body..];
      var punct := RunLength(u, true);
      [t[..body] + u[..punct]] + Sentences(u[punct..])
  }

  /** Every match is a sentence in the sense of `IsSentence`. */
  lemma {:induction false} SentencesWellFormed(s: seq<char>)
    ensures forall k :: 0 <= k < |Sentences(s)| ==> IsSentence(Sentences(s)[k])
    decreases |s|, 1
  {
    RunLengthMaximal(s, true);
    MatchesWellFormed(s[RunLength(s, true)..]);
  }

  lemma {:induction false} MatchesWellFormed(t: seq<char>)
    requires t == [] || !IsTerminal(t[0])
    ensures forall k :: 0 <= k < |Matches(t)| ==> IsSentence(Matches(t)[k])
    decreases |t|, 0
  {
    var body := RunLength(t, false);
    if body < |t| {
      var u := t[body..];
      var punct := RunLength(u, true);
      var x := t[..body] + u[..punct];
      var rest := Sentences(u[punct..]);
      MatchIsSentence(t, body, u, punct);
      SentencesWellFormed(u[punct..]);
      assert Matches(t) == [x] + rest;
      forall k | 0 <= k < |Matches(t)|
        ensures IsSentence(Matches(t)[k])
      {
        if k > 0 {
          assert Matches(t)[k] == rest[k - 1];
        }
      }
    }
  }

  /** One match: the maximal non-terminal run and the terminal run after it. */
  lemma MatchIsSentence(t: seq<char>, body: nat, u: seq<char>, punct: nat)
    requires t == [] || !IsTerminal(t[0])
    requires body == RunLength(t, false) < |t|
    requires u == t[body..] && punct == RunLength(u, true)
    ensures IsSentence(t[..body] + u[..punct])
  {
    RunLengthMaximal(t, false);
    RunLengthMaximal(u, true);
    var x := t[..body] + u[..punct];
    assert 0 < body;
    assert 0 < punct;
    forall i | 0 <= i < |x| - 1 && IsTerminal(x[i])
      ensures IsTerminal(x[i + 1])
    {
      if i >= body {
        assert x[i + 1] == u[i + 1 - body];
      }
    }
    assert x[0] == t[0];
    assert x[|x| - 1] == u[punct - 1];
  }

  /** The maximal-run characterisation of `RunLength` pins it down. */
  lemma RunLengthUnique(s: seq<char>, terminal: bool, n: nat)
    requires n <= |s|
    requires forall i :: 0 <= i < n ==> IsTerminal(s[i]) == terminal
    requires n < |s| ==> IsTerminal(s[n]) != terminal
    ensures RunLength(s, terminal) == n
  {
    RunLengthMaximal(s, terminal);
  }

  lemma RunLengthAppend(s: seq<char>, f: seq<char>, terminal: bool)
    ensures RunLength(s + f, terminal) ==
      if RunLength(s, terminal) < |s| then RunLength(s, terminal) else |s| + RunLength(f, terminal)
  {
    var m := RunLength(s, terminal);
    RunLengthMaximal(s, terminal);
    if m < |s| {
      RunLengthUnique(s + f, terminal, m);
    } else {
      var n := RunLength(f, terminal);
      RunLengthMaximal(f, terminal);
      assert forall i :: |s| <= i < |s| + n ==> (s + f)[i] == f[i - |s|];
      RunLengthUnique(s + f, terminal, |s| + n);
    }
  }

  /** No sentence is found exactly when no terminal character comes after a
      non-terminal one: the text is some terminal characters followed by an
      unterminated fragment (in particular, empty text and text without `.`,
      `!` or `?`). */
  lemma SentencesEmpty(s: seq<char>)
    ensures Sentences(s) == [] <==>
      forall i, j :: 0 <= i < j < |s| && !IsTerminal(s[i]) ==> !IsTerminal(s[j])
  {
    var gap := RunLength(s, true);
    var t := s[gap..];
    var body := RunLength(t, false);
    if body == |t| {
      RunLengthMaximal(s, true);
      RunLengthMaximal(t, false);
      forall i | gap <= i < |s|
        ensures !IsTerminal(s[i])
      {
        assert s[i] == t[i - gap];
      }
      TerminalsThenFragment(s, gap);
    } else {
      RunLengthMaximal(s, true);
      RunLengthMaximal(t, false);
      assert 0 < |t|;
      assert !IsTerminal(s[gap]) && s[gap] == t[0];
      assert IsTerminal(s[gap + body]) && s[gap + body] == t[body];
      assert 0 < body;
    }
  }

  /** Text made of a terminal run and then a non-terminal run has no terminal
      after a non-terminal. */
  lemma TerminalsThenFragment(s: seq<char>, gap: nat)
    requires gap <= |s|
    requires forall i :: 0 <= i < gap ==> IsTerminal(s[i])
    requires forall i :: gap <= i < |s| ==> !IsTerminal(s[i])
    ensures forall i, j :: 0 <= i < j < |s| && !IsTerminal(s[i]) ==> !IsTerminal(s[j])
  {
  }

  /** The sentences cover the whole text exactly when the text is empty, or
      starts with a non-terminal character and ends with a terminal one. */
  lemma SentencesCover(s: seq<char>)
    ensures Flatten(Sentences(s)) == s <==>
      s == [] || (!IsTerminal(s[0]) && IsTerminal(s[|s| - 1]))
  {
    if s != [] && !IsTerminal(s[0]) && IsTerminal(s[|s| - 1]) {
      SentencesCoverWellFramed(s);
    } else if s != [] && Flatten(Sentences(s)) == s {
      SentencesCoverFramed(s);
    }
  }

  lemma SentencesCoverFramed(s: seq<char>)
    requires s != [] && Flatten(Sentences(s)) == s
    ensures !IsTerminal(s[0]) && IsTerminal(s[|s| - 1])
  {
    var r := Sentences(s);
    SentencesWellFormed(s);
    assert r != [];
    assert IsSentence(r[0]) && IsSentence(r[|r| - 1]);
    FlattenEnds(r);
  }

  lemma {:induction false} SentencesCoverWellFramed(s: seq<char>)
    requires s != [] && !IsTerminal(s[0]) && IsTerminal(s[|s| - 1])
    ensures Flatten(Sentences(s)) == s
    decreases |s|
  {
    var body := RunLength(s, false);
    var u := s[body..];
    var punct := RunLength(u, true);
    var rest := u[punct..];
    var x := s[..body] + u[..punct];
    assert body < |s| by { RunLengthMaximal(s, false); }
    assert Sentences(s) == [x] + Sentences(rest) by {
      RunLengthUnique(s, true, 0);
      assert s[0..] == s;
    }
    assert x + rest == s;
    assert Flatten(Sentences(rest)) == rest by {
      if rest != [] {
        assert rest[|rest| - 1] == s[|s| - 1];
        assert rest[0] == u[punct];
        RunLengthMaximal(u, true);
        SentencesCoverWellFramed(rest);
      } else {
        assert Sentences(rest) == [];
      }
    }
    FlattenCons(x, Sentences(rest));
  }

  /** Text after the last terminal run appears in no sentence. */
  lemma {:induction false} SentencesDropTail(s: seq<char>, f: seq<char>)
    requires s == [] || IsTerminal(s[|s| - 1])
    requires forall i :: 0 <= i < |f| ==> !IsTerminal(f[i])
    ensures Sentences(s + f) == Sentences(s)
    decreases |s|, 1
  {
    RunLengthUnique(f, true, 0);
    RunLengthAppend(s, f, true);
    var gap := RunLength(s, true);
    if gap == |s| {
      assert (s + f)[gap..] == f;
      assert s[gap..] == [];
      assert Matches(f) == [] by { RunLengthUnique(f, false, |f|); }
    } else {
      var t := s[gap..];
      assert (s + f)[gap..] == t + f;
      assert t[|t| - 1] == s[|s| - 1];
      MatchesDropTail(t, f);
    }
  }

  lemma {:induction false} MatchesDropTail(t: seq<char>, f: seq<char>)
    requires t != [] && IsTerminal(t[|t| - 1])
    requires forall i :: 0 <= i < |f| ==> !IsTerminal(f[i])
    ensures Matches(t + f) == Matches(t)
    decreases |t|, 0
  {
    RunLengthUnique(f, true, 0);
    RunLengthAppend(t, f, false);
    var body := RunLength(t, false);
    assert body < |t| by {
      RunLengthMaximal(t, false);
    }
    var u := t[body..];
    assert (t + f)[body..] == u + f;
    assert (t + f)[..body] == t[..body];
    RunLengthAppend(u, f, true);
    var punct := RunLength(u, true);
    assert (u + f)[..punct] == u[..punct];
    var rest := u[punct..];
    assert (u + f)[punct..] == rest + f;
    if rest != [] {
      assert rest[|rest| - 1] == t[|t| - 1];
    }
    SentencesDropTail(rest, f);
  }

  /** Terminal characters that no non-terminal run precedes appear in no sentence. */
  lemma SentencesSkipLead(g: seq<char>, s: seq<char>)
    requires forall i :: 0 <= i < |g| ==> IsTerminal(g[i])
    requires s == [] || !IsTerminal(s[0])
    ensures Sentences(g + s) == Sentences(s)
  {
    RunLengthUnique(g, true, |g|);
    RunLengthUnique(s, true, 0);
    RunLengthAppend(g, s, true);
    assert (g + s)[|g|..] == s;
    assert s[0..] == s;
  }

  /** How the loop of `chunkText` groups the sentences `ss`, in order: the last
      group is what the buffer `currentChunk` holds after the loop, every earlier
      group a chunk already pushed. A sentence joins the buffer when the buffer's
      length plus its own stays within `maxTokens`; otherwise the buffer is
      pushed (the empty buffer too) and the sentence starts the next one. */
  function Groups(ss: seq<seq<char>>, maxTokens: int): (g: seq<seq<seq<char>>>)
    ensures |g| >= 1
    decreases |ss|
  {
    if ss == [] then [[]]
    else
      var g := Groups(ss[..|ss| - 1], maxTokens);
      var x := ss[|ss| - 1];
      var last := g[|g| - 1];
      if |Flatten(last)| + |x| > maxTokens then g + [[x]]
      else g[..|g| - 1] + [last + [x]]
  }

  /** The chunks `chunkText` returns for the sentences `ss`: one per group, the
      group's sentences concatenated; no sentence, no chunk. */
  function Chunks(ss: seq<seq<char>>, maxTokens: int): seq<seq<char>>
  {
    if ss == [] then [] else Joined(Groups(ss, maxTokens))
  }

  /** The groups partition the sentences, in order: none is lost, duplicated or
      moved. */
  lemma {:induction false} GroupsPartition(ss: seq<seq<char>>, maxTokens: int)
    ensures Flatten(Groups(ss, maxTokens)) == ss
    decreases |ss|
  {
    if ss != [] {
      var ss' := ss[..|ss| - 1];
      var g := Groups(ss', maxTokens);
      var x := ss[|ss| - 1];
      var last := g[|g| - 1];
      var G := Groups(ss, maxTokens);
      GroupsPartition(ss', maxTokens);
      if |Flatten(last)| + |x| > maxTokens {
        assert Flatten(G) == Flatten(g) + [x] by {
          assert G == g + [[x]];
          FlattenSnoc(g, [x]);
        }
      } else {
        assert Flatten(G) == Flatten(g) + [x] by {
          var init := g[..|g| - 1];
          assert G == init + [last + [x]];
          assert init + [last] == g;
          FlattenExtendLast(init, last, [x]);
        }
      }
      assert ss' + [x] == ss;
    }
  }

  /** Only the first group can be empty, and with at least one sentence the
      last group (the buffer left after the loop) is not. */
  lemma {:induction false} GroupsNonEmpty(ss: seq<seq<char>>, maxTokens: int)
    ensures forall k :: 0 < k < |Groups(ss, maxTokens)| ==> Groups(ss, maxTokens)[k] != []
    ensures ss != [] ==> Groups(ss, maxTokens)[|Groups(ss, maxTokens)| - 1] != []
    decreases |ss|
  {
    if ss != [] {
      GroupsNonEmpty(ss[..|ss| - 1], maxTokens);
    }
  }

  /** The soft bound: a group of two or more sentences fits within `maxTokens`,
      since a sentence joins the buffer only when the combined length fits. So a
      chunk longer than `maxTokens` is a single sentence. */
  lemma {:induction false} GroupsFit(ss: seq<seq<char>>, maxTokens: int)
    ensures forall k :: 0 <= k < |Groups(ss, maxTokens)| && |Groups(ss, maxTokens)[k]| >= 2 ==>
      |Flatten(Groups(ss, maxTokens)[k])| <= maxTokens
    decreases |ss|
  {
    if ss != [] {
      var ss' := ss[..|ss| - 1];
      var g := Groups(ss', maxTokens);
      var x := ss[|ss| - 1];
      var last := g[|g| - 1];
      GroupsFit(ss', maxTokens);
      if |Flatten(last)| + |x| <= maxTokens {
        FlattenSnoc(last, x);
      }
    }
  }

  /** Packing is greedy: the first sentence of each group did not fit into the
      group before it. */
  lemma {:induction false} GroupsGreedy(ss: seq<seq<char>>, maxTokens: int)
    ensures forall k :: 0 < k < |Groups(ss, maxTokens)| ==>
      Groups(ss, maxTokens)[k] != [] &&
      |Flatten(Groups(ss, maxTokens)[k - 1])| + |Groups(ss, maxTokens)[k][0]| > maxTokens
    decreases |ss|
  {
    GroupsNonEmpty(ss, maxTokens);
    if ss != [] {
      var ss' := ss[..|ss| - 1];
      var g := Groups(ss', maxTokens);
      GroupsGreedy(ss', maxTokens);
      GroupsNonEmpty(ss', maxTokens);
    }
  }

  /** The first group is empty exactly when the first sentence alone is longer
      than `maxTokens`: the loop then pushes the empty initial buffer. */
  lemma {:induction false} GroupsFirstEmpty(ss: seq<seq<char>>, maxTokens: int)
    requires ss != []
    ensures Groups(ss, maxTokens)[0] == [] <==> |ss[0]| > maxTokens
    decreases |ss|
  {
    var ss' := ss[..|ss| - 1];
    if ss' != [] {
      GroupsFirstEmpty(ss', maxTokens);
      GroupsNonEmpty(ss', maxTokens);
      assert ss'[0] == ss[0];
    } else {
      assert Flatten<seq<char>>([]) == [];
    }
  }

  /** The chunks, concatenated, are the sentences concatenated in order. */
  lemma ChunksConcat(ss: seq<seq<char>>, maxTokens: int)
    ensures Flatten(Chunks(ss, maxTokens)) == Flatten(ss)
  {
    if ss != [] {
      FlattenJoined(Groups(ss, maxTokens));
      GroupsPartition(ss, maxTokens);
    }
  }

  /** Every chunk of a text is at most `maxTokens` long, or is exactly one of its
      sentences, or is the empty first chunk. */
  lemma ChunksBound(text: seq<char>, maxTokens: int)
    ensures forall k :: 0 <= k < |Chunks(Sentences(text), maxTokens)| ==>
      var c := Chunks(Sentences(text), maxTokens)[k];
      |c| <= maxTokens || c in Sentences(text) || (k == 0 && c == [])
  {
    var ss := Sentences(text);
    if ss != [] {
      var g := Groups(ss, maxTokens);
      GroupsFit(ss, maxTokens);
      GroupsNonEmpty(ss, maxTokens);
      GroupsPartition(ss, maxTokens);
      forall k | 0 <= k < |g|
        ensures |Flatten(g[k])| <= maxTokens || Flatten(g[k]) in ss || (k == 0 && Flatten(g[k]) == [])
      {
        if |g[k]| == 0 {
          assert g[k] == [];
        } else if |g[k]| == 1 {
          assert [g[k][0]] == g[k];
          FlattenSingle(g[k][0]);
          FlattenContains(g, k, 0);
        }
      }
    }
  }

  /** Only the first chunk can be empty, and it is empty exactly when the first
      sentence alone is longer than `maxTokens`. */
  lemma ChunksNonEmpty(text: seq<char>, maxTokens: int)
    ensures forall k :: 0 < k < |Chunks(Sentences(text), maxTokens)| ==>
      Chunks(Sentences(text), maxTokens)[k] != []
    ensures Chunks(Sentences(text), maxTokens) != [] ==>
      (Chunks(Sentences(text), maxTokens)[0] == [] <==> |Sentences(text)[0]| > maxTokens)
  {
    var ss := Sentences(text);
    if ss != [] {
      var g := Groups(ss, maxTokens);
      SentencesWellFormed(text);
      GroupsNonEmpty(ss, maxTokens);
      GroupsFirstEmpty(ss, maxTokens);
      GroupsPartition(ss, maxTokens);
      forall k | 0 <= k < |g| && g[k] != []
        ensures Flatten(g[k]) != []
      {
        FlattenContains(g, k, 0);
        assert IsSentence(g[k][0]);
        FlattenNonEmpty(g[k], 0);
      }
    }
  }

  /** Packing is greedy, chunk by chunk: each chunk after the first starts with
      a sentence of the text (the first of its group) that did not fit after
      the chunk before it. */
  lemma ChunksGreedy(text: seq<char>, maxTokens: int)
    ensures var cs, g := Chunks(Sentences(text), maxTokens), Groups(Sentences(text), maxTokens);
      forall k :: 0 < k < |cs| ==>
        g[k] != [] && g[k][0] in Sentences(text) && |cs[k - 1]| + |g[k][0]| > maxTokens
  {
    var ss := Sentences(text);
    var cs, g := Chunks(ss, maxTokens), Groups(ss, maxTokens);
    if ss != [] {
      GroupsGreedy(ss, maxTokens);
      GroupsPartition(ss, maxTokens);
      forall k | 0 < k < |cs|
        ensures g[k] != [] && g[k][0] in ss && |cs[k - 1]| + |g[k][0]| > maxTokens
      {
        assert cs[k - 1] == Flatten(g[k - 1]);
        FlattenContains(g, k, 0);
      }
    }
  }

  /** A text yields no chunk exactly when it has no sentence: it is empty, or
      has no terminal character after a non-terminal one. */
  lemma ChunksNone(text: seq<char>, maxTokens: int)
    ensures Chunks(Sentences(text), maxTokens) == [] <==>
      forall i, j :: 0 <= i < j < |text| && !IsTerminal(text[i]) ==> !IsTerminal(text[j])
  {
    SentencesEmpty(text);
  }

  /** One iteration of the packing loop takes the groups of the first `i`
      sentences to those of the first `i + 1`. */
  lemma PackStep(ss: seq<seq<char>>, maxTokens: int, i: nat, chunks: seq<seq<char>>, current: seq<char>)
    requires i < |ss|
    requires chunks + [current] == Joined(Groups(ss[..i], maxTokens))
    ensures (if |current| + |ss[i]| > maxTokens then chunks + [current] + [ss[i]]
             else chunks + [current + ss[i]]) == Joined(Groups(ss[..i + 1], maxTokens))
  {
    var g := Groups(ss[..i], maxTokens);
    var x := ss[i];
    var last := g[|g| - 1];
    assert ss[..i + 1][..i] == ss[..i];
    assert current == Flatten(last);
    if |current| + |x| > maxTokens {
      FlattenSingle(x);
      JoinedSnoc(g, [x]);
    } else {
      var init := g[..|g| - 1];
      assert init + [last] == g;
      FlattenExtendLast(init, last, [x]);
      FlattenSnoc(init, last);
      JoinedSnoc(init, last + [x]);
      JoinedSnoc(init, last);
    }
  }

  /** The chunk length `processPDF` packs to: `chunkText`'s default (index.js:28). */
  const DefaultMaxTokens := 300

  /** The chunker of index.js:28-47. The regular-expression match is the
      function `Sentences`; the loop packs the sentences into `chunks`, keeping
      the buffer `current`. */
  method ChunkText(text: seq<char>, maxTokens: int) returns (chunks: seq<seq<char>>)
    ensures chunks == Chunks(Sentences(text), maxTokens)
    ensures Flatten(chunks) == Flatten(Sentences(text))
  {
    var sentences := Sentences(text);
    chunks := [];
    var current: seq<char> := [];
    for i := 0 to |sentences|
      invariant chunks + [current] == Joined(Groups(sentences[..i], maxTokens))
    {
      var sentence := sentences[i];
      PackStep(sentences, maxTokens, i, chunks, current);
      if |current| + |sentence| > maxTokens {
        chunks := chunks + [current];
        current := sentence;
      } else {
        current := current + sentence;
      }
    }
    assert sentences[..|sentences|] == sentences;
    if current != [] {
      chunks := chunks + [current];
    }
    if sentences != [] {
      ghost var g := Groups(sentences, maxTokens);
      GroupsNonEmpty(sentences, maxTokens);
      GroupsPartition(sentences, maxTokens);
      SentencesWellFormed(text);
      FlattenContains(g, |g| - 1, 0);
      assert IsSentence(g[|g| - 1][0]);
      FlattenNonEmpty(g[|g| - 1], 0);
      assert current != [];
    }
    ChunksConcat(sentences, maxTokens);
  }

  /** One match, with its extent given: `x` is the sentence, `rest` the text after it. */
  lemma MatchesAt(t: seq<char>, body: nat, punct: nat, x: seq<char>, rest: seq<char>)
    requires RunLength(t, false) == body < |t|
    requires RunLength(t[body..], true) == punct
    requires body + punct <= |t| && x == t[..body + punct] && rest == t[body + punct..]
    ensures Matches(t) == [x] + Sentences(rest)
  {
    assert t[..body] + t[body..][..punct] == x;
    assert t[body..][punct..] == rest;
  }

  /** A sentence of m non-terminal characters and one terminal one at the
      start of `t`, followed by the end of the text or a non-terminal. */
  lemma SentenceThen(t: seq<char>, m: nat)
    requires 0 < m < |t|
    requires forall i :: 0 <= i < m ==> !IsTerminal(t[i])
    requires IsTerminal(t[m])
    requires m + 1 == |t| || !IsTerminal(t[m + 1])
    ensures Sentences(t) == [t[..m + 1]] + Sentences(t[m + 1..])
  {
    SentencesFromNonTerminal(t);
    FirstMatchExtent(t, m);
    MatchesAt(t, m, 1, t[..m + 1], t[m + 1..]);
  }

  /** A text that starts with a non-terminal character is searched from its
      first character. */
  lemma SentencesFromNonTerminal(t: seq<char>)
    requires t != [] && !IsTerminal(t[0])
    ensures Sentences(t) == Matches(t)
  {
    assert RunLength(t, true) == 0;
    assert t[0..] == t;
  }

  /** The extent of a match of m non-terminal characters and one terminal one. */
  lemma FirstMatchExtent(t: seq<char>, m: nat)
    requires 0 < m < |t|
    requires forall i :: 0 <= i < m ==> !IsTerminal(t[i])
    requires IsTerminal(t[m])
    requires m + 1 == |t| || !IsTerminal(t[m + 1])
    ensures RunLength(t, false) == m && RunLength(t[m..], true) == 1
  {
    RunLengthUnique(t, false, m);
    var u := t[m..];
    assert u[0] == t[m];
    assert 1 < |u| ==> u[1] == t[m + 1];
    RunLengthUnique(u, true, 1);
  }

  lemma SentencesNone()
    ensures Sentences([]) == []
  {
    assert RunLength([], true) == 0;
    assert RunLength([], false) == 0;
  }

  /** The texts of the examples below are parameters rather than literals, so
      that the verifier follows the steps given instead of evaluating them. */
  lemma SentencesExampleABC(abc: seq<char>)
    requires abc == "A. B. C."
    ensures Sentences(abc) == [abc[..2], abc[2..5], abc[5..]]
  {
    SentencesOfThree(abc);
  }

  /** The same text given character by character, and its suffixes. */
  lemma SentencesOfThree(abc: seq<char>)
    requires |abc| == 8 && abc[0] == 'A' && abc[2] == ' ' && abc[3] == 'B' && abc[5] == ' ' && abc[6] == 'C'
    requires abc[1] == '.' && abc[4] == '.' && abc[7] == '.'
    ensures Sentences(abc) == [abc[..2], abc[2..5], abc[5..]]
  {
    var bc := abc[2..];
    SentencesOfTwo(bc);
    assert bc[..3] == abc[2..5] && bc[3..] == abc[5..];
    SentenceThen(abc, 1);
  }

  lemma SentencesOfTwo(bc: seq<char>)
    requires |bc| == 6 && bc[0] == ' ' && bc[1] == 'B' && bc[3] == ' ' && bc[4] == 'C'
    requires bc[2] == '.' && bc[5] == '.'
    ensures Sentences(bc) == [bc[..3], bc[3..]]
  {
    SentencesOfOne(bc[3..]);
    SentenceThen(bc, 2);
  }

  lemma SentencesOfOne(c: seq<char>)
    requires |c| == 3 && c[0] == ' ' && c[1] == 'C' && c[2] == '.'
    ensures Sentences(c) == [c]
  {
    SentenceThen(c, 2);
    assert c[3..] == [] && c[..3] == c;
    SentencesNone();
  }

  lemma SentencesExampleHello(hello: seq<char>)
    requires hello == "Hello."
    ensures Sentences(hello) == [hello]
  {
    SentenceThen(hello, 5);
    assert hello[6..] == [] && hello[..6] == hello;
    SentencesNone();
  }

  /** When the first sentence fits and no two consecutive sentences fit
      together, every sentence is a chunk of its own. */
  lemma {:induction false} ChunksSingletons(ss: seq<seq<char>>, maxTokens: int)
    requires ss != [] && |ss[0]| <= maxTokens
    requires forall k :: 0 < k < |ss| ==> |ss[k - 1]| + |ss[k]| > maxTokens
    ensures Chunks(ss, maxTokens) == ss
    decreases |ss|
  {
    var ss' := ss[..|ss| - 1];
    var x := ss[|ss| - 1];
    assert ss' + [x] == ss;
    if ss' == [] {
      assert Groups(ss', maxTokens) == [[]];
      assert Flatten<seq<char>>([]) == [];
      FlattenSingle(x);
      assert Groups(ss, maxTokens) == [[] + [x]];
    } else {
      ChunksSingletons(ss', maxTokens);
      var g := Groups(ss', maxTokens);
      assert Joined(g) == ss';
      var last := g[|g| - 1];
      assert Flatten(last) == ss[|ss| - 2] by {
        assert Joined(g)[|g| - 1] == Flatten(last);
      }
      assert |ss[|ss| - 2]| + |x| > maxTokens;
      assert Groups(ss, maxTokens) == g + [[x]];
      FlattenSingle(x);
      JoinedSnoc(g, [x]);
    }
  }

  /** Three sentences of two and three characters under a limit of 3 stay
      apart: no two fit together. */
  lemma ChunksOfThree(a: seq<char>, b: seq<char>, c: seq<char>)
    requires |a| == 2 && |b| == 3 && |c| == 3
    ensures Chunks([a, b, c], 3) == [a, b, c]
  {
    ChunksSingletons([a, b, c], 3);
  }

  /** A single sentence over the limit: the empty buffer is pushed first. */
  lemma ChunksOfLongOne(x: seq<char>, maxTokens: int)
    requires |x| > maxTokens
    ensures Chunks([x], maxTokens) == [[], x]
  {
    assert [x][..0] == [];
    assert Groups([], maxTokens) == [[]];
    assert Flatten<seq<char>>([]) == [];
    assert Groups([x], maxTokens) == [[], [x]];
    FlattenSingle(x);
  }

  /** "A. B. C." with a limit of 3: the sentences "A.", " B." and " C." of two
      and three characters, each its own chunk, leading spaces kept. */
  lemma ChunkExample(text: seq<char>)
    requires text == "A. B. C."
    ensures Chunks(Sentences(text), 3) == Sentences(text) == [text[..2], text[2..5], text[5..]]
  {
    SentencesExampleABC(text);
    ChunksOfThree(text[..2], text[2..5], text[5..]);
  }

  /** A first sentence longer than the limit makes the first chunk empty. */
  lemma EmptyFirstChunkExample(text: seq<char>)
    requires text == "Hello."
    ensures Chunks(Sentences(text), 3) == [[], text]
  {
    SentencesExampleHello(text);
    ChunksOfLongOne(text, 3);
  }
}
