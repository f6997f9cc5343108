/** Python string operations the search pipeline relies on: `str.isspace`,
    `str.strip`, `str.split()`, `' '.join`, `str.lower`, `str.title`, the
    substring test `sub in s`, and `re.sub(r'\s+', ' ', s)`. */
module Text {

  /** `str.isspace()` on one code point. `str.split()`, `str.strip()` and the
      `\s` class of `re` on `str` patterns all use this set. */
  predicate IsSpace(c: char)
  {
    var n := c as int;
    n == 0x20 || 0x09 <= n <= 0x0D || 0x1C <= n <= 0x1F || n == 0x85 || n == 0xA0
    || n == 0x1680 || 0x2000 <= n <= 0x200A || n == 0x2028 || n == 0x2029
    || n == 0x202F || n == 0x205F || n == 0x3000
  }

  predicate NoSpace(s: string)
  {
    forall i :: 0 <= i < |s| ==> !IsSpace(s[i])
  }

  /** Every whitespace character is a plain space, and no two are adjacent. */
  predicate SingleSpaced(s: string)
  {
    && (forall i :: 0 <= i < |s| && IsSpace(s[i]) ==> s[i] == ' ')
    && (forall i, j {:trigger s[i], s[j]} :: 0 <= i < |s| && j == i + 1 && j < |s| ==> !(IsSpace(s[i]) && IsSpace(s[j])))
  }

  /** The shape of `' '.join(words)`: single-spaced, no whitespace at either end. */
  predicate Normalized(s: string)
  {
    s == [] || (!IsSpace(s[0]) && !IsSpace(s[|s| - 1]) && SingleSpaced(s))
  }

  /** `s.lstrip()`: what it drops is whitespace, and what it keeps starts with a non-space. */
  function LStrip(s: string): (r: string)
    ensures |r| <= |s|
    ensures r == [] || !IsSpace(r[0])
    ensures forall i :: 0 <= i < |s| - |r| ==> IsSpace(s[i])
    decreases |s|
  {
    if s != [] && IsSpace(s[0]) then LStrip(s[1..]) else s
  }

  /** `s.rstrip()`: what it drops is whitespace, and what it keeps ends with a non-space. */
  function RStrip(s: string): (r: string)
    ensures |r| <= |s|
    ensures r == [] || (!IsSpace(r[|r| - 1]) && r[0] == s[0])
    ensures forall i :: |r| <= i < |s| ==> IsSpace(s[i])
    decreases |s|
  {
    if s != [] && IsSpace(s[|s| - 1]) then RStrip(s[..|s| - 1]) else s
  }

  /** `s.strip()`. */
  function Strip(s: string): (r: string)
    ensures |r| <= |s|
    ensures r == [] || (!IsSpace(r[0]) && !IsSpace(r[|r| - 1]))
  {
    RStrip(LStrip(s))
  }

  /** `s.split()` with no separator: the maximal runs of non-whitespace, in order. */
  function Words(s: string): seq<string>
  {
    WordsFrom(s, [])
  }

  /** `split()` scanning one character at a time, `cur` being the word read so far. */
  function WordsFrom(s: string, cur: string): seq<string>
    decreases |s|
  {
    if s == [] then Flush(cur)
    else if IsSpace(s[0]) then Flush(cur) + WordsFrom(s[1..], [])
    else WordsFrom(s[1..], cur + [s[0]])
  }

  /** The word being read, if there is one, once whitespace or the end is reached. */
  function Flush(cur: string): seq<string>
  {
    if cur == [] then [] else [cur]
  }

  /** `sep.join(parts)`. */
  function Join(parts: seq<string>, sep: string): string
    decreases |parts|
  {
    if parts == [] then []
    else if |parts| == 1 then parts[0]
    else parts[0] + sep + Join(parts[1..], sep)
  }

  /** `xs[:n]`. */
  function Take<T>(xs: seq<T>, n: nat): (r: seq<T>)
    ensures r <= xs && |r| <= n
    ensures |xs| <= n ==> r == xs
    ensures |xs| > n ==> |r| == n
  {
    if |xs| <= n then xs else xs[..n]
  }

  /** Concatenation is associative (stated once, for proofs where the solver
      would otherwise search for it). */
  lemma AppendAssoc<T>(a: seq<T>, b: seq<T>, c: seq<T>)
    ensures a + (b + c) == (a + b) + c
  {
  }

  /** `' '.join(parts)`. */
  function JoinSpaced(parts: seq<string>): string
  {
    Join(parts, " ")
  }

  /** The words of each part, one part after another. */
  function WordsOf(parts: seq<string>): seq<string>
    decreases |parts|
  {
    if parts == [] then [] else Words(parts[0]) + WordsOf(parts[1..])
  }

  /** `[p.strip() for p in parts]`. */
  function StripAll(parts: seq<string>): (r: seq<string>)
    ensures |r| == |parts|
    ensures forall i :: 0 <= i < |parts| ==> r[i] == Strip(parts[i])
  {
    seq(|parts|, i requires 0 <= i < |parts| => Strip(parts[i]))
  }

  /** `re.sub(r'\s+', ' ', s)`: each maximal run of whitespace becomes one space. */
  function CollapseSpace(s: string): (r: string)
    ensures SingleSpaced(r)
  {
    CollapseFrom(s, false)
  }

  /** `re.sub(r'\s+', ' ', s)` scanning one character at a time; `inRun` says that
      the character before `s` was whitespace, already replaced by its space. */
  function CollapseFrom(s: string, inRun: bool): (r: string)
    ensures SingleSpaced(r)
    ensures inRun ==> r == [] || !IsSpace(r[0])
    decreases |s|
  {
    if s == [] then []
    else if IsSpace(s[0]) then
      var rest := CollapseFrom(s[1..], true);
      if inRun then rest
      else
        SingleSpacedJoin(" ", rest);
        " " + rest
    else
      var rest := CollapseFrom(s[1..], false);
      SingleSpacedJoin([s[0]], rest);
      [s[0]] + rest
  }

  /** `re.sub(r'\s+', ' ', s).strip()`. */
  function NormalizeSpace(s: string): string
  {
    Strip(CollapseSpace(s))
  }

  /** `sub in s`. */
  predicate Contains(s: string, sub: string)
    decreases |s|
  {
    sub <= s || (s != [] && Contains(s[1..], sub))
  }

  /** `any(sub in s for sub in subs)`. */
  predicate ContainsAny(s: string, subs: seq<string>)
  {
    exists i :: 0 <= i < |subs| && Contains(s, subs[i])
  }

  predicate IsUpper(c: char) { 'A' <= c <= 'Z' }
  predicate IsLower(c: char) { 'a' <= c <= 'z' }
  predicate IsLetter(c: char) { IsUpper(c) || IsLower(c) }

  function LowerChar(c: char): char
  {
    if IsUpper(c) then (c as int + 32) as char else c
  }

  function UpperChar(c: char): char
  {
    if IsLower(c) then (c as int - 32) as char else c
  }

  /** `s.lower()` on ASCII letters: each upper-case letter becomes its lower-case
      form, every other character is kept. */
  function Lower(s: string): (r: string)
    ensures |r| == |s|
    ensures forall i :: 0 <= i < |s| ==> (IsSpace(r[i]) <==> IsSpace(s[i])) && !IsUpper(r[i])
    ensures forall i :: 0 <= i < |s| && !IsUpper(s[i]) ==> r[i] == s[i]
    ensures forall i :: 0 <= i < |s| && IsUpper(s[i]) ==> IsLower(r[i]) && UpperChar(r[i]) == s[i]
  {
    seq(|s|, i requires 0 <= i < |s| => LowerChar(s[i]))
  }

  /** `s.title()` on ASCII letters: a letter is upper-cased when it follows a
      non-letter and lower-cased when it follows a letter. */
  function TitleCase(s: string): (r: string)
    ensures |r| == |s|
  {
    TitleFrom(s, false)
  }

  function TitleFrom(s: string, afterLetter: bool): (r: string)
    ensures |r| == |s|
    decreases |s|
  {
    if s == [] then []
    else
      var c := s[0];
      var letter := IsLetter(c);
      [if !letter then c else if afterLetter then LowerChar(c) else UpperChar(c)]
        + TitleFrom(s[1..], letter)
  }

  // ---------------------------------------------------------------------------
  // Lemmas about whitespace handling
  // ---------------------------------------------------------------------------

  /** `s.title()` upper-cases each letter that starts a run of letters,
      lower-cases every other letter, and leaves everything else alone. */
  lemma TitleCaseLetters(s: string)
    ensures var r := TitleCase(s);
      forall i :: 0 <= i < |s| ==>
        && (!IsLetter(s[i]) ==> r[i] == s[i])
        && (IsLetter(s[i]) && (i == 0 || !IsLetter(s[i - 1])) ==> r[i] == UpperChar(s[i]))
        && (IsLetter(s[i]) && 0 < i && IsLetter(s[i - 1]) ==> r[i] == LowerChar(s[i]))
  {
    TitleFromLetters(s, false);
  }

  /** `r` is `s` title-cased, the character before `s` being a letter when `afterLetter`. */
  predicate TitledFrom(s: string, r: string, afterLetter: bool)
  {
    && |r| == |s|
    && forall i :: 0 <= i < |s| ==>
      && (!IsLetter(s[i]) ==> r[i] == s[i])
      && (IsLetter(s[i]) && !(if i == 0 then afterLetter else IsLetter(s[i - 1])) ==> r[i] == UpperChar(s[i]))
      && (IsLetter(s[i]) && (if i == 0 then afterLetter else IsLetter(s[i - 1])) ==> r[i] == LowerChar(s[i]))
  }

  lemma {:induction false} TitleFromLetters(s: string, afterLetter: bool)
    ensures TitledFrom(s, TitleFrom(s, afterLetter), afterLetter)
    decreases |s|
  {
    if s != [] {
      TitleFromLetters(s[1..], IsLetter(s[0]));
      var r := TitleFrom(s, afterLetter);
      var t := TitleFrom(s[1..], IsLetter(s[0]));
      assert r[1..] == t;
      forall i | 0 < i < |s|
        ensures r[i] == t[i - 1] && s[i] == s[1..][i - 1]
      {
      }
    }
  }

  /** Gluing two single-spaced strings keeps the shape unless whitespace meets whitespace. */
  lemma SingleSpacedJoin(a: string, b: string)
    requires SingleSpaced(a) && SingleSpaced(b)
    requires a == [] || b == [] || !IsSpace(a[|a| - 1]) || !IsSpace(b[0])
    ensures SingleSpaced(a + b)
  {
    var s := a + b;
    forall i | 0 <= i < |s| && IsSpace(s[i])
      ensures s[i] == ' '
    {
      if i < |a| { assert s[i] == a[i]; } else { assert s[i] == b[i - |a|]; }
    }
    forall i, j | 0 <= i && j == i + 1 && j < |s|
      ensures !(IsSpace(s[i]) && IsSpace(s[j]))
    {
      if j < |a| {
        assert s[i] == a[i] && s[j] == a[j];
      } else if i >= |a| {
        assert s[i] == b[i - |a|] && s[j] == b[j - |a|];
      } else {
        assert s[i] == a[|a| - 1] && s[j] == b[0];
      }
    }
  }

  lemma SingleSpacedSlice(s: string, lo: nat, hi: nat)
    requires lo <= hi <= |s| && SingleSpaced(s)
    ensures SingleSpaced(s[lo..hi])
  {
    var t := s[lo..hi];
    forall i | 0 <= i < |t| && IsSpace(t[i])
      ensures t[i] == ' '
    {
      assert t[i] == s[lo + i];
    }
    forall i, j | 0 <= i && j == i + 1 && j < |t|
      ensures !(IsSpace(t[i]) && IsSpace(t[j]))
    {
      assert t[i] == s[lo + i] && t[j] == s[lo + j];
    }
  }

  lemma {:induction false} LStripIsSuffix(s: string)
    ensures LStrip(s) == s[|s| - |LStrip(s)|..]
    decreases |s|
  {
    if s != [] && IsSpace(s[0]) { LStripIsSuffix(s[1..]); }
  }

  lemma {:induction false} RStripIsPrefix(s: string)
    ensures RStrip(s) == s[..|RStrip(s)|]
    decreases |s|
  {
    if s != [] && IsSpace(s[|s| - 1]) { RStripIsPrefix(s[..|s| - 1]); }
  }

  /** A non-empty run of whitespace, such as the separator of `' '.join` or `'\n\n'.join`. */
  predicate Blank(sep: string)
  {
    sep != [] && forall i :: 0 <= i < |sep| ==> IsSpace(sep[i])
  }

  /** Each element is a non-empty run of non-whitespace. */
  predicate AllWords(ws: seq<string>)
  {
    forall i :: 0 <= i < |ws| ==> ws[i] != [] && NoSpace(ws[i])
  }

  /** Every word `split()` returns is non-empty and holds no whitespace. */
  lemma {:induction false} WordsAreWords(s: string, cur: string)
    requires NoSpace(cur)
    ensures AllWords(WordsFrom(s, cur))
    decreases |s|
  {
    if s != [] {
      if IsSpace(s[0]) {
        WordsAreWords(s[1..], []);
        var ws := WordsFrom(s, cur);
        var f := Flush(cur);
        forall i | 0 <= i < |ws|
          ensures ws[i] != [] && NoSpace(ws[i])
        {
          if i >= |f| { assert ws[i] == WordsFrom(s[1..], [])[i - |f|]; }
        }
      } else {
        WordsAreWords(s[1..], cur + [s[0]]);
        assert WordsFrom(s, cur) == WordsFrom(s[1..], cur + [s[0]]);
      }
    }
  }

  /** A run of whitespace ends the word being read and produces nothing itself. */
  lemma {:induction false} WordsAfterBlank(sep: string, b: string, cur: string)
    requires Blank(sep)
    ensures WordsFrom(sep + b, cur) == Flush(cur) + WordsFrom(b, [])
    decreases |sep|
  {
    assert (sep + b)[0] == sep[0];
    assert (sep + b)[1..] == sep[1..] + b;
    if |sep| > 1 {
      WordsAfterBlank(sep[1..], b, []);
    }
  }

  /** Text ending where whitespace (or nothing) begins splits independently of it. */
  lemma {:induction false} WordsAppend(a: string, t: string, cur: string)
    requires t == [] || IsSpace(t[0])
    ensures WordsFrom(a + t, cur) == WordsFrom(a, cur) + WordsFrom(t, [])
    decreases |a|
  {
    if a == [] {
      assert a + t == t;
    } else {
      assert (a + t)[0] == a[0];
      assert (a + t)[1..] == a[1..] + t;
      if IsSpace(a[0]) {
        WordsAppend(a[1..], t, []);
      } else {
        WordsAppend(a[1..], t, cur + [a[0]]);
      }
    }
  }

  /** Splitting at a run of whitespace splits the word list there. */
  lemma WordsAround(a: string, sep: string, b: string)
    requires Blank(sep)
    ensures Words(a + sep + b) == Words(a) + Words(b)
  {
    assert a + sep + b == a + (sep + b);
    WordsAppend(a, sep + b, []);
    WordsAfterBlank(sep, b, []);
  }

  /** `s.lstrip().split() == s.split()`. */
  lemma {:induction false} WordsOfLStrip(s: string)
    ensures Words(LStrip(s)) == Words(s)
    decreases |s|
  {
    if s != [] && IsSpace(s[0]) {
      WordsOfLStrip(s[1..]);
    }
  }

  /** `s.rstrip().split() == s.split()`. */
  lemma {:induction false} WordsOfRStrip(s: string)
    ensures Words(RStrip(s)) == Words(s)
    decreases |s|
  {
    if s != [] && IsSpace(s[|s| - 1]) {
      var p := s[..|s| - 1];
      assert s == p + [s[|s| - 1]];
      WordsAppend(p, [s[|s| - 1]], []);
      assert WordsFrom([s[|s| - 1]], []) == [];
      WordsOfRStrip(p);
    }
  }

  /** `s.strip().split() == s.split()`. */
  lemma WordsOfStrip(s: string)
    ensures Words(Strip(s)) == Words(s)
  {
    WordsOfRStrip(LStrip(s));
    WordsOfLStrip(s);
  }

  /** Collapsing whitespace runs keeps every word and its order. */
  lemma {:induction false} WordsOfCollapseFrom(s: string, inRun: bool, cur: string)
    requires inRun ==> cur == []
    ensures WordsFrom(CollapseFrom(s, inRun), cur) == WordsFrom(s, cur)
    decreases |s|
  {
    if s != [] {
      var r := CollapseFrom(s, inRun);
      if IsSpace(s[0]) {
        var rest := CollapseFrom(s[1..], true);
        WordsOfCollapseFrom(s[1..], true, []);
        if !inRun {
          assert r == [' '] + rest;
          assert r[1..] == rest;
        }
      } else {
        var rest := CollapseFrom(s[1..], false);
        assert r == [s[0]] + rest;
        assert r[1..] == rest;
        WordsOfCollapseFrom(s[1..], false, cur + [s[0]]);
      }
    }
  }

  /** `re.sub(r'\s+', ' ', s).strip()` is single-spaced with no whitespace at either end. */
  lemma NormalizeSpaceNormalized(s: string)
    ensures Normalized(NormalizeSpace(s))
  {
    var c := CollapseSpace(s);
    var l := LStrip(c);
    LStripIsSuffix(c);
    RStripIsPrefix(l);
    SingleSpacedSlice(c, |c| - |l|, |c|);
    SingleSpacedSlice(l, 0, |RStrip(l)|);
  }

  /** `re.sub(r'\s+', ' ', s).strip().split() == s.split()`. */
  lemma NormalizeKeepsWords(s: string)
    ensures Words(NormalizeSpace(s)) == Words(s)
  {
    WordsOfStrip(CollapseSpace(s));
    WordsOfCollapseFrom(s, false, []);
  }

  /** Reading single-spaced text after the word `cur` gives back `cur + s` when re-joined. */
  lemma {:induction false} JoinWordsFrom(s: string, cur: string)
    requires NoSpace(cur) && SingleSpaced(s)
    requires s == [] || !IsSpace(s[|s| - 1])
    requires cur == [] ==> s == [] || !IsSpace(s[0])
    ensures JoinSpaced(WordsFrom(s, cur)) == cur + s
    decreases |s|
  {
    SingleSpacedSlice(s, if s == [] then 0 else 1, |s|);
    if s == [] {
      assert cur + s == cur;
    } else if IsSpace(s[0]) {
      var rest := s[1..];
      assert s[0] == ' ' && rest != [];
      assert rest[0] == s[1] && rest[|rest| - 1] == s[|s| - 1];
      JoinWordsFrom(rest, []);
      var ws := WordsFrom(rest, []);
      assert ws != [];
      assert ([cur] + ws)[1..] == ws;
      assert cur + s == cur + " " + rest;
    } else {
      var rest := s[1..];
      assert rest == [] || rest[|rest| - 1] == s[|s| - 1];
      JoinWordsFrom(rest, cur + [s[0]]);
      assert cur + [s[0]] + rest == cur + s;
    }
  }

  /** A normalized string is the space-join of its own words. */
  lemma NormalizedIsJoin(s: string)
    requires Normalized(s)
    ensures JoinSpaced(Words(s)) == s
  {
    JoinWordsFrom(s, []);
  }

  /** `re.sub(r'\s+', ' ', s).strip() == ' '.join(s.split())`. */
  lemma NormalizeIsJoinOfWords(s: string)
    ensures NormalizeSpace(s) == JoinSpaced(Words(s))
  {
    NormalizeSpaceNormalized(s);
    NormalizedIsJoin(NormalizeSpace(s));
    NormalizeKeepsWords(s);
  }

  /** `sep.join(parts).split()`, for a whitespace separator, is the words of the parts in order. */
  lemma {:induction false} WordsOfJoin(parts: seq<string>, sep: string)
    requires Blank(sep)
    ensures Words(Join(parts, sep)) == WordsOf(parts)
    decreases |parts|
  {
    if parts == [] {
    } else if |parts| == 1 {
      assert WordsOf(parts[1..]) == [];
    } else {
      WordsAround(parts[0], sep, Join(parts[1..], sep));
      WordsOfJoin(parts[1..], sep);
    }
  }

  /** Stripping each part first changes none of the words. */
  lemma {:induction false} WordsOfStripAll(parts: seq<string>)
    ensures WordsOf(StripAll(parts)) == WordsOf(parts)
    decreases |parts|
  {
    if parts != [] {
      WordsOfStrip(parts[0]);
      assert StripAll(parts)[1..] == StripAll(parts[1..]);
      WordsOfStripAll(parts[1..]);
    }
  }
}
