/** The lexical summariser of search_app.py (`generate_summary`): sentence
    split, ordered quality filter with first-5-words deduplication, fallback,
    word-budget selection and the three-way partition into sections. */
module Summarizer {
  import opened Text

  const MinSentenceLength := 25
  const MaxSentenceLength := 300
  const EarlyAllowance := 3
  const KeyWordCount := 5
  const FallbackLimit := 12
  const TargetWords := 2000
  const FloorWords := 1500

  /** Lower-cased substrings that mark a sentence as page boilerplate. */
  const Blocklist: seq<string> :=
    ["click", "menu", "login", "subscribe", "cookie", "privacy policy", "terms of service", "contact us"]

  const KeyFindings := "Key Findings"
  const ImportantDetails := "Important Details"
  const AdditionalInformation := "Additional Information"

  datatype Section = Section(title: string, bullets: seq<string>)

  /** What `generate_summary` returns: the no-content message, the
      limited-content message, or a heading followed by three sections. */
  datatype Summary =
    | NoContent
    | LimitedContent
    | Overview(heading: string, sections: seq<Section>)

  // ---------------------------------------------------------------------------
  // Sentence split: re.split(r'[.!?]+', text)
  // ---------------------------------------------------------------------------

  predicate IsTerminator(c: char) { c == '.' || c == '!' || c == '?' }

  predicate NoTerminator(s: string)
  {
    forall i :: 0 <= i < |s| ==> !IsTerminator(s[i])
  }

  /** Length of the longest prefix of `s` without a terminator. */
  function SentenceEnd(s: string): (k: nat)
    ensures k <= |s|
    ensures forall i :: 0 <= i < k ==> !IsTerminator(s[i])
    ensures k == |s| || IsTerminator(s[k])
    decreases |s|
  {
    if s == [] || IsTerminator(s[0]) then 0 else 1 + SentenceEnd(s[1..])
  }

  /** Drops the run of terminators at the front of `s`. */
  function SkipTerminators(s: string): (r: string)
    ensures |r| <= |s|
    ensures r == [] || !IsTerminator(r[0])
    ensures forall i :: 0 <= i < |s| - |r| ==> IsTerminator(s[i])
    decreases |s|
  {
    if s != [] && IsTerminator(s[0]) then SkipTerminators(s[1..]) else s
  }

  /** The pieces between maximal runs of `.`, `!` and `?`, empty pieces
      included, exactly as `re.split(r'[.!?]+', s)` returns them. */
  function SplitSentences(s: string): (pieces: seq<string>)
    ensures |pieces| >= 1
    ensures forall i :: 0 <= i < |pieces| ==> NoTerminator(pieces[i])
    decreases |s|
  {
    var k := SentenceEnd(s);
    if k == |s| then [s]
    else [s[..k]] + SplitSentences(SkipTerminators(s[k..]))
  }

  /** A non-empty run of terminators. */
  predicate TerminatorRun(t: string)
  {
    t != [] && forall i :: 0 <= i < |t| ==> IsTerminator(t[i])
  }

  /** The terminator runs `re.split(r'[.!?]+', s)` splits at, in order. */
  function Separators(s: string): (runs: seq<string>)
    ensures |runs| == |SplitSentences(s)| - 1
    ensures forall i :: 0 <= i < |runs| ==> TerminatorRun(runs[i])
    decreases |s|
  {
    var k := SentenceEnd(s);
    if k == |s| then []
    else
      var t := s[k..];
      [LeadingTerminators(t)] + Separators(SkipTerminators(t))
  }

  /** The run of terminators at the front of `s`, the part `SkipTerminators` drops. */
  function LeadingTerminators(s: string): (run: string)
    ensures forall i :: 0 <= i < |run| ==> IsTerminator(run[i])
    ensures run + SkipTerminators(s) == s
    decreases |s|
  {
    if s != [] && IsTerminator(s[0]) then [s[0]] + LeadingTerminators(s[1..]) else []
  }

  /** `pieces[0] + runs[0] + pieces[1] + ... + pieces[n - 1]`. */
  function Interleave(pieces: seq<string>, runs: seq<string>): string
    requires |runs| == |pieces| - 1
    decreases |pieces|
  {
    if pieces == [] then []
    else if |pieces| == 1 then pieces[0]
    else pieces[0] + runs[0] + Interleave(pieces[1..], runs[1..])
  }

  /** `s` with every terminator removed. */
  function DropTerminators(s: string): string
    decreases |s|
  {
    if s == [] then []
    else (if IsTerminator(s[0]) then [] else [s[0]]) + DropTerminators(s[1..])
  }

  function Concat(pieces: seq<string>): string
    decreases |pieces|
  {
    if pieces == [] then [] else pieces[0] + Concat(pieces[1..])
  }

  // ---------------------------------------------------------------------------
  // Quality filter and deduplication
  // ---------------------------------------------------------------------------

  /** `[w.lower() for w in query.split() if len(w) > 2]`. */
  function QueryWords(query: string): (qw: seq<string>)
  {
    LongWordsLowered(Words(query))
  }

  function LongWordsLowered(ws: seq<string>): seq<string>
    decreases |ws|
  {
    if ws == [] then []
    else (if |ws[0]| > 2 then [Lower(ws[0])] else []) + LongWordsLowered(ws[1..])
  }

  /** The query words are exactly the lower-cased words longer than two characters. */
  lemma {:induction false} LongWordsLoweredSpec(ws: seq<string>)
    ensures var qw := LongWordsLowered(ws);
      && (forall w :: w in ws && |w| > 2 ==> Lower(w) in qw)
      && (forall q :: q in qw ==> |q| > 2 && exists w :: w in ws && |w| > 2 && q == Lower(w))
    decreases |ws|
  {
    if ws != [] {
      LongWordsLoweredSpec(ws[1..]);
      var qw := LongWordsLowered(ws);
      var head := if |ws[0]| > 2 then [Lower(ws[0])] else [];
      assert qw == head + LongWordsLowered(ws[1..]);
      forall w | w in ws && |w| > 2
        ensures Lower(w) in qw
      {
        if w != ws[0] { assert w in ws[1..]; }
      }
      forall q | q in qw
        ensures |q| > 2 && exists w :: w in ws && |w| > 2 && q == Lower(w)
      {
        if q in head {
          assert ws[0] in ws;
        } else {
          var w :| w in ws[1..] && |w| > 2 && q == Lower(w);
          assert w in ws;
        }
      }
    }
  }

  predicate LengthOk(s: string) { MinSentenceLength < |s| < MaxSentenceLength }

  predicate IsBoilerplate(s: string) { ContainsAny(Lower(s), Blocklist) }

  predicate MentionsQuery(s: string, queryWords: seq<string>) { ContainsAny(Lower(s), queryWords) }

  /** A stripped candidate is accepted (before the duplicate check) when it
      has a good length, is not boilerplate, and mentions the query or
      arrives while fewer than three sentences have been accepted. */
  predicate Qualifies(s: string, queryWords: seq<string>, acceptedSoFar: nat)
  {
    LengthOk(s) && !IsBoilerplate(s) && (MentionsQuery(s, queryWords) || acceptedSoFar < EarlyAllowance)
  }

  /** `' '.join(s.lower().split()[:5])`. */
  function SentenceKey(s: string): string
  {
    JoinSpaced(Take(Words(Lower(s)), KeyWordCount))
  }

  ghost function KeySet(ss: seq<string>): set<string>
  {
    set s | s in ss :: SentenceKey(s)
  }

  /** The good sentences after the ordered pass over `candidates`. */
  ghost function Accepted(candidates: seq<string>, queryWords: seq<string>): seq<string>
    decreases |candidates|
  {
    if candidates == [] then []
    else
      var prev := Accepted(candidates[..|candidates| - 1], queryWords);
      var s := Strip(candidates[|candidates| - 1]);
      if Qualifies(s, queryWords, |prev|) && SentenceKey(s) !in KeySet(prev) then prev + [s] else prev
  }

  /** The loop over the split sentences that fills `good_sentences` and `seen_content`. */
  method FilterSentences(candidates: seq<string>, queryWords: seq<string>) returns (good: seq<string>)
    ensures good == Accepted(candidates, queryWords)
  {
    good := [];
    var seen: set<string> := {};
    for i := 0 to |candidates|
      invariant good == Accepted(candidates[..i], queryWords)
      invariant seen == KeySet(good)
    {
      assert candidates[..i + 1][..i] == candidates[..i];
      var sentence := Strip(candidates[i]);
      if Qualifies(sentence, queryWords, |good|) {
        var key := SentenceKey(sentence);
        if key !in seen {
          seen := seen + {key};
          good := good + [sentence];
        }
      }
    }
    assert candidates[..|candidates|] == candidates;
  }

  /** `[s.strip() for s in sentences if 25 < len(s.strip()) < 300]`. */
  function LengthBounded(candidates: seq<string>): (r: seq<string>)
    ensures forall i :: 0 <= i < |r| ==> LengthOk(r[i])
    decreases |candidates|
  {
    if candidates == [] then []
    else
      var s := Strip(candidates[0]);
      (if LengthOk(s) then [s] else []) + LengthBounded(candidates[1..])
  }

  /** The fallback list used when no sentence was accepted: the first twelve
      length-bounded stripped candidates. */
  function Fallback(candidates: seq<string>): (r: seq<string>)
    ensures |r| <= FallbackLimit
    ensures forall i :: 0 <= i < |r| ==> LengthOk(r[i])
    ensures r <= LengthBounded(candidates)
    ensures |r| < FallbackLimit ==> r == LengthBounded(candidates)
  {
    Take(LengthBounded(candidates), FallbackLimit)
  }

  // ---------------------------------------------------------------------------
  // Word-budget selection
  // ---------------------------------------------------------------------------

  /** `len(s.split())`. */
  function WordCount(s: string): nat { |Words(s)| }

  function TotalWords(ss: seq<string>): nat
    decreases |ss|
  {
    if ss == [] then 0 else WordCount(ss[0]) + TotalWords(ss[1..])
  }

  /** What the budget loop selects from `rest` when `count` words are
      already selected: it stops once `count` reaches the target; a sentence
      is taken if it fits the target or while `count` is below the floor. */
  ghost function Budgeted(rest: seq<string>, count: nat): seq<string>
    decreases |rest|
  {
    if rest == [] || count >= TargetWords then []
    else
      var w := WordCount(rest[0]);
      if count + w <= TargetWords || count < FloorWords then [rest[0]] + Budgeted(rest[1..], count + w)
      else Budgeted(rest[1..], count)
  }

  /** The loop that fills `selected_sentences` while tracking `word_count`. */
  method SelectByBudget(good: seq<string>) returns (selected: seq<string>)
    ensures selected == Budgeted(good, 0)
  {
    selected := [];
    var wordCount := 0;
    var i := 0;
    while i < |good|
      invariant 0 <= i <= |good|
      invariant wordCount < TargetWords
      invariant wordCount == TotalWords(selected)
      invariant selected + Budgeted(good[i..], wordCount) == Budgeted(good, 0)
    {
      assert good[i..][1..] == good[i + 1..];
      var sentenceWords := WordCount(good[i]);
      if wordCount + sentenceWords <= TargetWords {
        TotalWordsAppend(selected, good[i]);
        selected := selected + [good[i]];
        wordCount := wordCount + sentenceWords;
      } else if wordCount < FloorWords {
        TotalWordsAppend(selected, good[i]);
        selected := selected + [good[i]];
        wordCount := wordCount + sentenceWords;
      }
      i := i + 1;
      if wordCount >= TargetWords {
        break;
      }
    }
    if i == |good| {
      assert Budgeted(good[i..], wordCount) == [];
    }
  }

  // ---------------------------------------------------------------------------
  // Sections and the whole summary
  // ---------------------------------------------------------------------------

  /** The three sections: `s = len(selected) // 3` sentences in each of the
      first two, the rest in the third, all in selection order. */
  function Sections(selected: seq<string>): (sections: seq<Section>)
    ensures |sections| == 3
    ensures sections[0].title == KeyFindings
    ensures sections[1].title == ImportantDetails
    ensures sections[2].title == AdditionalInformation
    ensures sections[0].bullets + sections[1].bullets + sections[2].bullets == selected
    ensures |sections[0].bullets| == |sections[1].bullets| == |selected| / 3
    ensures |sections[0].bullets| <= |sections[2].bullets| <= |sections[0].bullets| + 2
  {
    var size := |selected| / 3;
    [ Section(KeyFindings, selected[..size]),
      Section(ImportantDetails, selected[size..2 * size]),
      Section(AdditionalInformation, selected[2 * size..]) ]
  }

  /** All bullets of an overview, section after section. */
  function Bullets(sections: seq<Section>): seq<string>
    decreases |sections|
  {
    if sections == [] then [] else sections[0].bullets + Bullets(sections[1..])
  }

  /** `" ".join(contents)` split into candidate sentences. */
  function Candidates(contents: seq<string>): seq<string>
  {
    SplitSentences(JoinSpaced(contents))
  }

  /** The good sentences: the accepted ones, or the fallback when none is. */
  ghost function Chosen(candidates: seq<string>, queryWords: seq<string>): seq<string>
  {
    var accepted := Accepted(candidates, queryWords);
    if accepted == [] then Fallback(candidates) else accepted
  }

  /** The filter loop followed by the fallback when it accepted nothing. */
  method ChooseSentences(candidates: seq<string>, queryWords: seq<string>) returns (good: seq<string>)
    ensures good == Chosen(candidates, queryWords)
  {
    good := FilterSentences(candidates, queryWords);
    if good == [] {
      good := Fallback(candidates);
    }
  }

  /** The heading over the sections. */
  function Heading(query: string): string
  {
    "Overview of " + TitleCase(query)
  }

  /** The summary built from the selected sentences. */
  function Present(query: string, selected: seq<string>): Summary
  {
    if selected == [] then LimitedContent else Overview(Heading(query), Sections(selected))
  }

  /** The summary `generate_summary(query, contents)` describes. */
  ghost function SummaryOf(query: string, contents: seq<string>): Summary
  {
    if contents == [] then NoContent
    else Present(query, Budgeted(Chosen(Candidates(contents), QueryWords(query)), 0))
  }

  method GenerateSummary(query: string, contents: seq<string>) returns (summary: Summary)
    ensures summary == SummaryOf(query, contents)
  {
    if contents == [] {
      return NoContent;
    }
    var combined := JoinSpaced(contents);
    var queryWords := QueryWords(query);
    var sentences := SplitSentences(combined);
    var good := ChooseSentences(sentences, queryWords);
    var selected := SelectByBudget(good);
    summary := Present(query, selected);
  }

  // ---------------------------------------------------------------------------
  // Lemmas
  // ---------------------------------------------------------------------------

  lemma {:induction false} TotalWordsAppend(ss: seq<string>, s: string)
    ensures TotalWords(ss + [s]) == TotalWords(ss) + WordCount(s)
    decreases |ss|
  {
    if ss == [] {
      assert ss + [s] == [s];
    } else {
      assert (ss + [s])[1..] == ss[1..] + [s];
      TotalWordsAppend(ss[1..], s);
    }
  }

  // ---------------------------------------------------------------------------
  // Subsequences
  // ---------------------------------------------------------------------------

  /** `xs` is `ys` with some elements left out, the rest kept in order. */
  predicate Subseq<T(==)>(xs: seq<T>, ys: seq<T>)
    decreases |ys|
  {
    xs == [] || (ys != [] && ((xs[0] == ys[0] && Subseq(xs[1..], ys[1..])) || Subseq(xs, ys[1..])))
  }

  lemma {:induction false} SubseqMembers<T>(xs: seq<T>, ys: seq<T>)
    requires Subseq(xs, ys)
    ensures forall i :: 0 <= i < |xs| ==> xs[i] in ys
    decreases |ys|
  {
    if xs != [] {
      if xs[0] == ys[0] && Subseq(xs[1..], ys[1..]) {
        SubseqMembers(xs[1..], ys[1..]);
        forall i | 0 <= i < |xs|
          ensures xs[i] in ys
        {
          if i > 0 { assert xs[i] == xs[1..][i - 1]; }
        }
      } else {
        SubseqMembers(xs, ys[1..]);
      }
    }
  }

  lemma {:induction false} SubseqOfPrefix<T>(xs: seq<T>, ys: seq<T>)
    requires xs <= ys
    ensures Subseq(xs, ys)
    decreases |ys|
  {
    if xs != [] {
      SubseqOfPrefix(xs[1..], ys[1..]);
    }
  }

  lemma {:induction false} SubseqTrans<T>(xs: seq<T>, ys: seq<T>, zs: seq<T>)
    requires Subseq(xs, ys) && Subseq(ys, zs)
    ensures Subseq(xs, zs)
    decreases |zs|
  {
    if xs != [] {
      if ys[0] == zs[0] && Subseq(ys[1..], zs[1..]) {
        if xs[0] == ys[0] && Subseq(xs[1..], ys[1..]) {
          SubseqTrans(xs[1..], ys[1..], zs[1..]);
        } else {
          SubseqTrans(xs, ys[1..], zs[1..]);
        }
      } else {
        SubseqTrans(xs, ys, zs[1..]);
      }
    }
  }

  /** Appending the same element to both keeps the relation, and so does
      appending any element to the longer one alone. */
  lemma {:induction false} SubseqSnoc<T>(xs: seq<T>, ys: seq<T>, y: T)
    requires Subseq(xs, ys)
    ensures Subseq(xs + [y], ys + [y]) && Subseq(xs, ys + [y])
    decreases |ys|
  {
    if xs == [] {
      assert Subseq([y], [y]) by { assert [y][1..] == []; }
      if ys != [] {
        assert (ys + [y])[1..] == ys[1..] + [y];
        SubseqSnoc(xs, ys[1..], y);
      } else {
        assert ys + [y] == [y];
      }
      assert xs + [y] == [y];
    } else {
      assert (ys + [y])[1..] == ys[1..] + [y];
      assert (xs + [y])[1..] == xs[1..] + [y];
      if xs[0] == ys[0] && Subseq(xs[1..], ys[1..]) {
        SubseqSnoc(xs[1..], ys[1..], y);
      } else {
        SubseqSnoc(xs, ys[1..], y);
      }
    }
  }

  lemma {:induction false} SubseqLength<T>(xs: seq<T>, ys: seq<T>)
    requires Subseq(xs, ys)
    ensures |xs| <= |ys|
    decreases |ys|
  {
    if xs != [] {
      if xs[0] == ys[0] && Subseq(xs[1..], ys[1..]) {
        SubseqLength(xs[1..], ys[1..]);
      } else {
        SubseqLength(xs, ys[1..]);
      }
    }
  }

  /** Leaving sentences out cannot make two keys equal. */
  lemma {:induction false} SubseqDistinctKeys(xs: seq<string>, ys: seq<string>)
    requires Subseq(xs, ys) && DistinctKeys(ys)
    ensures DistinctKeys(xs)
    decreases |ys|
  {
    if xs != [] {
      assert DistinctKeys(ys[1..]) by {
        forall i, j | 0 <= i < j < |ys[1..]|
          ensures SentenceKey(ys[1..][i]) != SentenceKey(ys[1..][j])
        {
          assert ys[1..][i] == ys[i + 1] && ys[1..][j] == ys[j + 1];
        }
      }
      if xs[0] == ys[0] && Subseq(xs[1..], ys[1..]) {
        SubseqDistinctKeys(xs[1..], ys[1..]);
        SubseqMembers(xs[1..], ys[1..]);
        forall i, j | 0 <= i < j < |xs|
          ensures SentenceKey(xs[i]) != SentenceKey(xs[j])
        {
          assert xs[j] == xs[1..][j - 1];
          if i == 0 {
            var k :| 0 <= k < |ys[1..]| && ys[1..][k] == xs[j];
            assert ys[k + 1] == xs[j];
          } else {
            assert xs[i] == xs[1..][i - 1];
          }
        }
      } else {
        SubseqDistinctKeys(xs, ys[1..]);
      }
    }
  }

  /** Leaving sentences out moves none to a later position, so a property held
      from position `k` on still holds from position `k` on. */
  lemma {:induction false} SubseqMentionsFrom(xs: seq<string>, ys: seq<string>, k: nat, queryWords: seq<string>)
    requires Subseq(xs, ys)
    requires forall i :: k <= i < |ys| ==> MentionsQuery(ys[i], queryWords)
    ensures forall i :: k <= i < |xs| ==> MentionsQuery(xs[i], queryWords)
    decreases |ys|
  {
    if xs != [] {
      var k' := if k == 0 then 0 else k - 1;
      assert forall i :: k' <= i < |ys[1..]| ==> MentionsQuery(ys[1..][i], queryWords) by {
        forall i | k' <= i < |ys[1..]|
          ensures MentionsQuery(ys[1..][i], queryWords)
        {
          assert ys[1..][i] == ys[i + 1];
        }
      }
      if xs[0] == ys[0] && Subseq(xs[1..], ys[1..]) {
        SubseqMentionsFrom(xs[1..], ys[1..], k', queryWords);
        forall i | k <= i < |xs|
          ensures MentionsQuery(xs[i], queryWords)
        {
          if i > 0 { assert xs[i] == xs[1..][i - 1]; }
        }
      } else {
        SubseqMentionsFrom(xs, ys[1..], k', queryWords);
      }
    }
  }

  /** Leaving sentences out keeps the quality filter's guarantees. */
  lemma SubseqWellFiltered(xs: seq<string>, ys: seq<string>, queryWords: seq<string>)
    requires Subseq(xs, ys) && WellFiltered(ys, queryWords)
    ensures WellFiltered(xs, queryWords)
  {
    SubseqMembers(xs, ys);
    SubseqMentionsFrom(xs, ys, EarlyAllowance, queryWords);
  }

  // ---------------------------------------------------------------------------
  // The sentence split keeps all text
  // ---------------------------------------------------------------------------

  lemma {:induction false} DropTerminatorsAppend(a: string, b: string)
    ensures DropTerminators(a + b) == DropTerminators(a) + DropTerminators(b)
    decreases |a|
  {
    if a == [] {
      assert a + b == b;
    } else {
      assert (a + b)[0] == a[0];
      assert (a + b)[1..] == a[1..] + b;
      DropTerminatorsAppend(a[1..], b);
    }
  }

  lemma {:induction false} DropTerminatorsNone(s: string)
    requires NoTerminator(s)
    ensures DropTerminators(s) == s
    decreases |s|
  {
    if s != [] {
      DropTerminatorsNone(s[1..]);
    }
  }

  lemma {:induction false} DropTerminatorsSkip(s: string)
    ensures DropTerminators(SkipTerminators(s)) == DropTerminators(s)
    decreases |s|
  {
    if s != [] && IsTerminator(s[0]) {
      DropTerminatorsSkip(s[1..]);
    }
  }

  /** `''.join(re.split(r'[.!?]+', s))` is `s` with its terminators removed:
      the split loses no other character and reorders nothing. */
  lemma {:induction false} SplitKeepsText(s: string)
    ensures Concat(SplitSentences(s)) == DropTerminators(s)
    decreases |s|
  {
    var k := SentenceEnd(s);
    if k == |s| {
      DropTerminatorsNone(s);
      assert Concat([s]) == s + Concat([]);
    } else {
      var rest := SkipTerminators(s[k..]);
      SplitKeepsText(rest);
      var pieces := SplitSentences(s);
      assert pieces == [s[..k]] + SplitSentences(rest);
      assert pieces[1..] == SplitSentences(rest);
      DropTerminatorsNone(s[..k]);
      DropTerminatorsSkip(s[k..]);
      assert s == s[..k] + s[k..];
      DropTerminatorsAppend(s[..k], s[k..]);
    }
  }

  /** The split is a round trip: the pieces, which hold no terminator, put
      back together with the non-empty terminator runs between them, give
      `s` again. With SplitInteriorNonEmpty (no empty piece between two
      runs) this makes each run a maximal one, so the split points are
      exactly the maximal runs of terminators. */
  lemma {:induction false} SplitRoundTrip(s: string)
    ensures Interleave(SplitSentences(s), Separators(s)) == s
    decreases |s|
  {
    var k := SentenceEnd(s);
    if k == |s| {
      assert SplitSentences(s) == [s] && Separators(s) == [];
    } else {
      var t := s[k..];
      var rest := SkipTerminators(t);
      var run := LeadingTerminators(t);
      SplitRoundTrip(rest);
      var ps := SplitSentences(rest);
      var rs := Separators(rest);
      assert SplitSentences(s) == [s[..k]] + ps;
      assert Separators(s) == [run] + rs;
      InterleaveCons(s[..k], run, ps, rs);
      assert Interleave(ps, rs) == rest;
      assert run + rest == t;
      assert s[..k] + t == s;
      Reassemble(Interleave(SplitSentences(s), Separators(s)), s[..k], run, rest, s);
    }
  }

  /** Only the first and the last piece can be empty: between two terminator
      runs there is always text, so every separator is a whole maximal run. */
  lemma {:induction false} SplitInteriorNonEmpty(s: string)
    ensures s != [] && !IsTerminator(s[0]) ==> SplitSentences(s)[0] != []
    ensures var pieces := SplitSentences(s);
      forall i :: 0 < i < |pieces| - 1 ==> pieces[i] != []
    decreases |s|
  {
    var k := SentenceEnd(s);
    if k < |s| {
      var rest := SkipTerminators(s[k..]);
      SplitInteriorNonEmpty(rest);
      var pieces := SplitSentences(s);
      var ps := SplitSentences(rest);
      assert pieces == [s[..k]] + ps;
      forall i | 0 < i < |pieces| - 1
        ensures pieces[i] != []
      {
        assert pieces[i] == ps[i - 1];
        if i == 1 {
          assert |ps| > 1;
          assert rest != [];
        }
      }
    }
  }

  lemma Reassemble(x: string, a: string, run: string, rest: string, s: string)
    requires x == a + run + rest
    requires a + (run + rest) == s
    ensures x == s
  {
    AppendAssoc(a, run, rest);
  }

  lemma InterleaveCons(p: string, r: string, ps: seq<string>, rs: seq<string>)
    requires ps != [] && |rs| == |ps| - 1
    ensures Interleave([p] + ps, [r] + rs) == p + r + Interleave(ps, rs)
  {
    assert ([p] + ps)[1..] == ps;
    assert ([r] + rs)[1..] == rs;
  }


  // ---------------------------------------------------------------------------
  // What the filter accepts
  // ---------------------------------------------------------------------------

  /** Each sentence has a good length and is not boilerplate, and each one
      after the first three mentions a query word. */
  predicate WellFiltered(good: seq<string>, queryWords: seq<string>)
  {
    forall i :: 0 <= i < |good| ==>
      && LengthOk(good[i]) && !IsBoilerplate(good[i])
      && (EarlyAllowance <= i ==> MentionsQuery(good[i], queryWords))
  }

  /** No two sentences share a deduplication key. */
  predicate DistinctKeys(good: seq<string>)
  {
    forall i, j :: 0 <= i < j < |good| ==> SentenceKey(good[i]) != SentenceKey(good[j])
  }

  /** The accepted sentences pass the quality filter. */
  lemma {:induction false} AcceptedQuality(candidates: seq<string>, queryWords: seq<string>)
    ensures WellFiltered(Accepted(candidates, queryWords), queryWords)
    decreases |candidates|
  {
    if candidates != [] {
      var init := candidates[..|candidates| - 1];
      AcceptedQuality(init, queryWords);
      var prev := Accepted(init, queryWords);
      var s := Strip(candidates[|candidates| - 1]);
      if Qualifies(s, queryWords, |prev|) && SentenceKey(s) !in KeySet(prev) {
        var a := prev + [s];
        forall i | 0 <= i < |a|
          ensures LengthOk(a[i]) && !IsBoilerplate(a[i])
          ensures EarlyAllowance <= i ==> MentionsQuery(a[i], queryWords)
        {
          if i < |prev| { assert a[i] == prev[i]; }
        }
      }
    }
  }

  /** The accepted sentences have pairwise different keys. */
  lemma {:induction false} AcceptedDistinctKeys(candidates: seq<string>, queryWords: seq<string>)
    ensures DistinctKeys(Accepted(candidates, queryWords))
    decreases |candidates|
  {
    if candidates != [] {
      var init := candidates[..|candidates| - 1];
      AcceptedDistinctKeys(init, queryWords);
      var prev := Accepted(init, queryWords);
      var s := Strip(candidates[|candidates| - 1]);
      if Qualifies(s, queryWords, |prev|) && SentenceKey(s) !in KeySet(prev) {
        var a := prev + [s];
        forall i, j | 0 <= i < j < |a|
          ensures SentenceKey(a[i]) != SentenceKey(a[j])
        {
          assert a[i] == prev[i];
          if j == |prev| {
            assert prev[i] in prev;
          } else {
            assert a[j] == prev[j];
          }
        }
      }
    }
  }

  /** The stripped candidates one after another. */
  lemma StripAllSnoc(candidates: seq<string>)
    requires candidates != []
    ensures var n := |candidates| - 1;
      StripAll(candidates) == StripAll(candidates[..n]) + [Strip(candidates[n])]
  {
  }

  /** The accepted sentences are stripped candidates, in candidate order. */
  lemma {:induction false} AcceptedSubseq(candidates: seq<string>, queryWords: seq<string>)
    ensures Subseq(Accepted(candidates, queryWords), StripAll(candidates))
    decreases |candidates|
  {
    if candidates != [] {
      var init := candidates[..|candidates| - 1];
      AcceptedSubseq(init, queryWords);
      StripAllSnoc(candidates);
      SubseqSnoc(Accepted(init, queryWords), StripAll(init), Strip(candidates[|candidates| - 1]));
    }
  }

  /** The pass is incremental: what is accepted from the first `j`
      candidates stays, in order, at the front of the final list. */
  lemma {:induction false} AcceptedPrefix(candidates: seq<string>, queryWords: seq<string>, j: nat)
    requires j <= |candidates|
    ensures Accepted(candidates[..j], queryWords) <= Accepted(candidates, queryWords)
    decreases |candidates|
  {
    if j == |candidates| {
      assert candidates[..j] == candidates;
    } else {
      var init := candidates[..|candidates| - 1];
      assert init[..j] == candidates[..j];
      AcceptedPrefix(init, queryWords, j);
    }
  }

  /** Candidate `j` is clean (good length, no blocklisted phrase) and either
      mentions the query or arrives while fewer than three are accepted. */
  ghost predicate Eligible(candidates: seq<string>, queryWords: seq<string>, j: nat)
    requires j < |candidates|
  {
    var s := Strip(candidates[j]);
    LengthOk(s) && !IsBoilerplate(s)
    && (MentionsQuery(s, queryWords) || |Accepted(candidates[..j], queryWords)| < EarlyAllowance)
  }

  /** An eligible candidate is never lost: right after it is read, its key is
      among the accepted keys, because it was accepted then or a sentence
      accepted before it already had that key (the first occurrence wins).
      Its key is then among the keys of the final list too. */
  lemma AcceptedCovers(candidates: seq<string>, queryWords: seq<string>)
    ensures forall j :: 0 <= j < |candidates| && Eligible(candidates, queryWords, j) ==>
      && SentenceKey(Strip(candidates[j])) in KeySet(Accepted(candidates[..j + 1], queryWords))
      && SentenceKey(Strip(candidates[j])) in KeySet(Accepted(candidates, queryWords))
  {
    forall j | 0 <= j < |candidates| && Eligible(candidates, queryWords, j)
      ensures SentenceKey(Strip(candidates[j])) in KeySet(Accepted(candidates[..j + 1], queryWords))
      ensures SentenceKey(Strip(candidates[j])) in KeySet(Accepted(candidates, queryWords))
    {
      AcceptedCoversAt(candidates, queryWords, j);
    }
  }

  lemma AcceptedCoversAt(candidates: seq<string>, queryWords: seq<string>, j: nat)
    requires j < |candidates| && Eligible(candidates, queryWords, j)
    ensures SentenceKey(Strip(candidates[j])) in KeySet(Accepted(candidates[..j + 1], queryWords))
    ensures SentenceKey(Strip(candidates[j])) in KeySet(Accepted(candidates, queryWords))
  {
    var s := Strip(candidates[j]);
    var prefix := candidates[..j + 1];
    assert prefix[..j] == candidates[..j];
    assert prefix[j] == candidates[j];
    var prev := Accepted(candidates[..j], queryWords);
    var now := Accepted(prefix, queryWords);
    assert KeySet(prev) <= KeySet(now);
    if SentenceKey(s) !in KeySet(prev) {
      assert now == prev + [s];
      assert s in now;
    }
    AcceptedPrefix(candidates, queryWords, j + 1);
    var all := Accepted(candidates, queryWords);
    assert forall x :: x in now ==> x in all;
  }

  /** The filter accepts nothing only when every candidate of a good length
      is boilerplate. */
  lemma {:induction false} AcceptedNone(candidates: seq<string>, queryWords: seq<string>)
    requires Accepted(candidates, queryWords) == []
    ensures forall j :: 0 <= j < |candidates| && LengthOk(Strip(candidates[j])) ==>
      IsBoilerplate(Strip(candidates[j]))
    decreases |candidates|
  {
    if candidates != [] {
      var n := |candidates| - 1;
      var init := candidates[..n];
      AcceptedNone(init, queryWords);
      forall j | 0 <= j < n
        ensures candidates[j] == init[j]
      {
      }
    }
  }

  // ---------------------------------------------------------------------------
  // The fallback
  // ---------------------------------------------------------------------------

  lemma StripAllTail(candidates: seq<string>)
    requires candidates != []
    ensures StripAll(candidates) == [Strip(candidates[0])] + StripAll(candidates[1..])
  {
  }

  /** The length-bounded sentences are stripped candidates, in candidate order. */
  lemma {:induction false} LengthBoundedSubseq(candidates: seq<string>)
    ensures Subseq(LengthBounded(candidates), StripAll(candidates))
    decreases |candidates|
  {
    if candidates != [] {
      StripAllTail(candidates);
      LengthBoundedSubseq(candidates[1..]);
      var s := Strip(candidates[0]);
      var all := StripAll(candidates);
      assert all[1..] == StripAll(candidates[1..]);
      if LengthOk(s) {
        assert LengthBounded(candidates) == [s] + LengthBounded(candidates[1..]);
      } else {
        assert LengthBounded(candidates) == LengthBounded(candidates[1..]);
      }
    }
  }

  /** The length filter works sentence by sentence. */
  lemma {:induction false} LengthBoundedAppend(a: seq<string>, b: seq<string>)
    ensures LengthBounded(a + b) == LengthBounded(a) + LengthBounded(b)
    decreases |a|
  {
    if a == [] {
      assert a + b == b;
    } else {
      assert (a + b)[0] == a[0];
      assert (a + b)[1..] == a[1..] + b;
      LengthBoundedAppend(a[1..], b);
      var head := if LengthOk(Strip(a[0])) then [Strip(a[0])] else [];
      AppendAssoc(head, LengthBounded(a[1..]), LengthBounded(b));
    }
  }

  /** Reading candidate `j` adds its stripped text to the list exactly when
      that has a good length: every good-length candidate is kept, in place,
      and nothing else is. */
  lemma LengthBoundedStep(candidates: seq<string>, j: nat)
    requires j < |candidates|
    ensures var s := Strip(candidates[j]);
      LengthBounded(candidates[..j + 1]) ==
        LengthBounded(candidates[..j]) + (if LengthOk(s) then [s] else [])
  {
    assert candidates[..j + 1] == candidates[..j] + [candidates[j]];
    LengthBoundedAppend(candidates[..j], [candidates[j]]);
    assert [candidates[j]][1..] == [];
  }

  /** The length filter keeps nothing exactly when no stripped candidate has a good length. */
  lemma {:induction false} LengthBoundedEmpty(candidates: seq<string>)
    ensures LengthBounded(candidates) == [] <==>
      forall j :: 0 <= j < |candidates| ==> !LengthOk(Strip(candidates[j]))
    decreases |candidates|
  {
    if candidates != [] {
      LengthBoundedEmpty(candidates[1..]);
      forall j | 1 <= j < |candidates|
        ensures candidates[j] == candidates[1..][j - 1]
      {
      }
    }
  }

  /** The fallback sentences are stripped candidates, in candidate order. */
  lemma FallbackSubseq(candidates: seq<string>)
    ensures Subseq(Fallback(candidates), StripAll(candidates))
  {
    SubseqOfPrefix(Fallback(candidates), LengthBounded(candidates));
    LengthBoundedSubseq(candidates);
    SubseqTrans(Fallback(candidates), LengthBounded(candidates), StripAll(candidates));
  }

  /** The fallback is reached only when every candidate of a good length is
      boilerplate, so every sentence it supplies is boilerplate. */
  lemma FallbackIsBoilerplate(candidates: seq<string>, queryWords: seq<string>)
    requires Accepted(candidates, queryWords) == []
    ensures forall i :: 0 <= i < |Fallback(candidates)| ==> IsBoilerplate(Fallback(candidates)[i])
  {
    var f := Fallback(candidates);
    var all := StripAll(candidates);
    FallbackSubseq(candidates);
    SubseqMembers(f, all);
    AcceptedNone(candidates, queryWords);
    forall i | 0 <= i < |f|
      ensures IsBoilerplate(f[i])
    {
      var j :| 0 <= j < |all| && all[j] == f[i];
      assert LengthOk(Strip(candidates[j]));
    }
  }

  // ---------------------------------------------------------------------------
  // The word budget
  // ---------------------------------------------------------------------------

  /** The budget loop keeps sentences in their order and invents none. */
  lemma {:induction false} BudgetedSubseq(rest: seq<string>, count: nat)
    ensures Subseq(Budgeted(rest, count), rest)
    decreases |rest|
  {
    if rest != [] && count < TargetWords {
      var w := WordCount(rest[0]);
      if count + w <= TargetWords || count < FloorWords {
        BudgetedSubseq(rest[1..], count + w);
      } else {
        BudgetedSubseq(rest[1..], count);
      }
    }
  }

  /** Below the floor nothing is skipped: the first sentence is always taken. */
  lemma BudgetedTakesFirst(rest: seq<string>, count: nat)
    requires rest != [] && count < FloorWords
    ensures Budgeted(rest, count) != [] && Budgeted(rest, count)[0] == rest[0]
  {
  }

  /** When everything fits under the target, everything is selected. */
  lemma {:induction false} BudgetedAllFit(rest: seq<string>, count: nat)
    requires count + TotalWords(rest) < TargetWords
    ensures Budgeted(rest, count) == rest
    decreases |rest|
  {
    if rest != [] {
      BudgetedAllFit(rest[1..], count + WordCount(rest[0]));
    }
  }

  /** A sentence is taken only while the count is below the target, and only
      if it fits the target or the count is below the floor. */
  predicate Admissible(before: nat, words: nat)
  {
    before < TargetWords && (before + words <= TargetWords || before < FloorWords)
  }

  /** Each selected sentence was admissible given the words selected before it. */
  predicate AdmittedInOrder(selected: seq<string>, count: nat)
  {
    forall k :: 0 <= k < |selected| ==>
      Admissible(count + TotalWords(selected[..k]), WordCount(selected[k]))
  }

  /** The budget loop admits each sentence only under the budget rule, and
      stops as soon as the count reaches the target. */
  lemma {:induction false} BudgetedAdmission(rest: seq<string>, count: nat)
    ensures AdmittedInOrder(Budgeted(rest, count), count)
    decreases |rest|
  {
    if rest != [] && count < TargetWords {
      var w := WordCount(rest[0]);
      if count + w <= TargetWords || count < FloorWords {
        var tail := Budgeted(rest[1..], count + w);
        BudgetedAdmission(rest[1..], count + w);
        var sel := [rest[0]] + tail;
        assert Budgeted(rest, count) == sel;
        forall k | 0 <= k < |sel|
          ensures Admissible(count + TotalWords(sel[..k]), WordCount(sel[k]))
        {
          if k == 0 {
            assert sel[..0] == [];
          } else {
            assert sel[..k][1..] == tail[..k - 1];
            assert sel[k] == tail[k - 1];
          }
        }
      } else {
        BudgetedAdmission(rest[1..], count);
      }
    }
  }

  /** The budget loop, one sentence further: sentence `x` is selected
      exactly when it is admissible given the words selected before it. So a
      sentence is left out only when it was not admissible. */
  lemma {:induction false} BudgetedStep(rest: seq<string>, x: string, count: nat)
    ensures var before := Budgeted(rest, count);
      Budgeted(rest + [x], count) ==
        before + (if Admissible(count + TotalWords(before), WordCount(x)) then [x] else [])
    decreases |rest|
  {
    var before := Budgeted(rest, count);
    var tail := if Admissible(count + TotalWords(before), WordCount(x)) then [x] else [];
    if rest == [] {
      assert rest + [x] == [x];
      assert [x][1..] == [];
    } else {
      var more := rest + [x];
      assert more[0] == rest[0];
      assert more[1..] == rest[1..] + [x];
      var w := WordCount(rest[0]);
      if count >= TargetWords {
        assert Budgeted(more, count) == [] && before == [];
      } else if count + w <= TargetWords || count < FloorWords {
        var inner := Budgeted(rest[1..], count + w);
        assert Budgeted(more, count) == [rest[0]] + Budgeted(rest[1..] + [x], count + w);
        assert before == [rest[0]] + inner;
        assert before[1..] == inner;
        assert TotalWords(before) == w + TotalWords(inner);
        BudgetedStep(rest[1..], x, count + w);
        AppendAssoc([rest[0]], inner, tail);
      } else {
        assert Budgeted(more, count) == Budgeted(rest[1..] + [x], count);
        assert before == Budgeted(rest[1..], count);
        BudgetedStep(rest[1..], x, count);
      }
    }
  }


  /** A selection that ends below the floor skipped nothing. */
  lemma {:induction false} BudgetedBelowFloor(rest: seq<string>, count: nat)
    requires count + TotalWords(Budgeted(rest, count)) < FloorWords
    ensures Budgeted(rest, count) == rest
    decreases |rest|
  {
    if rest != [] {
      var w := WordCount(rest[0]);
      assert Budgeted(rest, count) == [rest[0]] + Budgeted(rest[1..], count + w);
      assert ([rest[0]] + Budgeted(rest[1..], count + w))[1..] == Budgeted(rest[1..], count + w);
      BudgetedBelowFloor(rest[1..], count + w);
    }
  }

  /** The selection passes the target only through its last sentence, and that
      one was admitted while the count was still below the floor. */
  lemma {:induction false} BudgetedOvershoot(rest: seq<string>, count: nat)
    requires count < TargetWords
    ensures var sel := Budgeted(rest, count);
      count + TotalWords(sel) > TargetWords ==>
        sel != [] && count + TotalWords(sel) - WordCount(sel[|sel| - 1]) < FloorWords
    decreases |rest|
  {
    if rest != [] {
      var w := WordCount(rest[0]);
      var sel := Budgeted(rest, count);
      if count + w <= TargetWords {
        var tail := Budgeted(rest[1..], count + w);
        assert sel == [rest[0]] + tail;
        if count + w < TargetWords {
          BudgetedOvershoot(rest[1..], count + w);
          if tail != [] {
            assert sel[|sel| - 1] == tail[|tail| - 1];
          }
        }
      } else if count < FloorWords {
        assert sel == [rest[0]];
      } else {
        BudgetedOvershoot(rest[1..], count);
      }
    }
  }

  // ---------------------------------------------------------------------------
  // The whole summary
  // ---------------------------------------------------------------------------

  lemma BulletsOfSections(selected: seq<string>)
    ensures Bullets(Sections(selected)) == selected
  {
    var secs := Sections(selected);
    assert Bullets(secs[2..]) == secs[2].bullets by {
      assert secs[2..][1..] == [];
    }
    assert Bullets(secs[1..]) == secs[1].bullets + secs[2].bullets by {
      assert secs[1..][1..] == secs[2..];
    }
  }

  /** The no-content message is given exactly when there are no contents. */
  lemma SummaryNoContent(query: string, contents: seq<string>)
    ensures SummaryOf(query, contents) == NoContent <==> contents == []
  {
    if contents != [] {
      var selected := Budgeted(Chosen(Candidates(contents), QueryWords(query)), 0);
      assert SummaryOf(query, contents) == Present(query, selected);
    }
  }

  /** The chosen sentences are empty exactly when no candidate has a good length. */
  lemma ChosenEmpty(candidates: seq<string>, queryWords: seq<string>)
    ensures Chosen(candidates, queryWords) == [] <==>
      forall j :: 0 <= j < |candidates| ==> !LengthOk(Strip(candidates[j]))
  {
    LengthBoundedEmpty(candidates);
    var a := Accepted(candidates, queryWords);
    if a != [] {
      AcceptedQuality(candidates, queryWords);
      AcceptedSubseq(candidates, queryWords);
      SubseqMembers(a, StripAll(candidates));
      var all := StripAll(candidates);
      var j :| 0 <= j < |all| && all[j] == a[0];
      assert LengthOk(Strip(candidates[j]));
    }
  }

  /** With contents, the limited-content message is given exactly when no
      candidate sentence has a good length once stripped. */
  lemma SummaryLimited(query: string, contents: seq<string>)
    requires contents != []
    ensures var c := Candidates(contents);
      SummaryOf(query, contents) == LimitedContent <==>
        forall j :: 0 <= j < |c| ==> !LengthOk(Strip(c[j]))
  {
    var c := Candidates(contents);
    var good := Chosen(c, QueryWords(query));
    var selected := Budgeted(good, 0);
    assert SummaryOf(query, contents) == Present(query, selected);
    ChosenEmpty(c, QueryWords(query));
    if good != [] {
      BudgetedTakesFirst(good, 0);
    }
  }

  /** An overview has the heading, the three titled sections whose bullets are
      the selection in order, drawn in candidate order from the stripped
      candidates, each of a good length. When the filter accepted something,
      the bullets keep its guarantees; otherwise they are at most twelve
      boilerplate sentences. */
  lemma SummaryOverview(query: string, contents: seq<string>)
    requires SummaryOf(query, contents).Overview?
    ensures var o := SummaryOf(query, contents);
      var c := Candidates(contents);
      var qw := QueryWords(query);
      var bullets := Bullets(o.sections);
      && o.heading == Heading(query)
      && |o.sections| == 3
      && o.sections[0].title == KeyFindings
      && o.sections[1].title == ImportantDetails
      && o.sections[2].title == AdditionalInformation
      && Subseq(bullets, StripAll(c))
      && (forall i :: 0 <= i < |bullets| ==> LengthOk(bullets[i]))
      && (Accepted(c, qw) != [] ==> WellFiltered(bullets, qw) && DistinctKeys(bullets))
      && (Accepted(c, qw) == [] ==>
            |bullets| <= FallbackLimit && forall i :: 0 <= i < |bullets| ==> IsBoilerplate(bullets[i]))
  {
    var c := Candidates(contents);
    var qw := QueryWords(query);
    var good := Chosen(c, qw);
    var selected := Budgeted(good, 0);
    assert SummaryOf(query, contents) == Overview(Heading(query), Sections(selected));
    BulletsOfSections(selected);
    BudgetedSubseq(good, 0);
    SubseqMembers(selected, good);
    var a := Accepted(c, qw);
    if a != [] {
      AcceptedSubseq(c, qw);
      SubseqTrans(selected, good, StripAll(c));
      AcceptedQuality(c, qw);
      SubseqWellFiltered(selected, good, qw);
      AcceptedDistinctKeys(c, qw);
      SubseqDistinctKeys(selected, good);
    } else {
      FallbackSubseq(c);
      SubseqTrans(selected, good, StripAll(c));
      FallbackIsBoilerplate(c, qw);
      SubseqLength(selected, good);
    }
  }
}
