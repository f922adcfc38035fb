/** The import scanner and import-map builder of the live preview: `extractImports` runs the global
    pattern  import[^'"`]*['"`]([^'"`]+)['"`]  over the code, keeps the bare specifiers once each in
    first-seen order, and `buildImportMap` maps each of them to its CDN module URL. */
module Preview {
  import opened Ordered

  datatype Option<T> = None | Some(value: T)

  const Keyword := "import"

  predicate IsQuote(c: char) {
    c == '\'' || c == '"' || c == '`'
  }

  predicate NoQuotes(s: string) {
    forall k :: 0 <= k < |s| ==> !IsQuote(s[k])
  }

  /** No quote at positions `i` up to `j` of `s`. */
  predicate NoQuoteBetween(s: string, i: nat, j: nat) {
    i <= j <= |s| && forall k :: i <= k < j ==> !IsQuote(s[k])
  }

  predicate KeywordAt(s: string, p: nat) {
    p + |Keyword| <= |s| && s[p..p + |Keyword|] == Keyword
  }

  /** One match of the pattern: the keyword at `start`, the opening quote at `open` and the closing
      quote at `close`. The capture lies strictly between the two quotes. */
  datatype Match = Match(start: nat, open: nat, close: nat) {
    /** Where the next search starts (`lastIndex` after the match). */
    function End(): nat {
      close + 1
    }
  }

  /** `m` is a match of the pattern in `s`: the keyword, a run of non-quote characters, a quote, a
      non-empty run of non-quote characters (the capture) and a quote. The two quotes may differ. */
  predicate IsMatch(s: string, m: Match) {
    && m.start + |Keyword| <= m.open
    && m.open + 1 < m.close < |s|
    && KeywordAt(s, m.start)
    && NoQuoteBetween(s, m.start + |Keyword|, m.open)
    && IsQuote(s[m.open])
    && NoQuoteBetween(s, m.open + 1, m.close)
    && IsQuote(s[m.close])
  }

  /** The captured specifier (`match[1]`). */
  function Capture(s: string, m: Match): (spec: string)
    requires IsMatch(s, m)
    ensures |spec| > 0 && NoQuotes(spec)
  {
    var spec := s[m.open + 1..m.close];
    assert forall k :: 0 <= k < |spec| ==> spec[k] == s[m.open + 1 + k];
    spec
  }

  /** The first quote at or after `i`, or `|s|` when there is none. */
  function FindQuote(s: string, i: nat): (j: nat)
    requires i <= |s|
    ensures i <= j <= |s|
    ensures j < |s| ==> IsQuote(s[j])
    ensures NoQuoteBetween(s, i, j)
    decreases |s| - i
  {
    if i == |s| || IsQuote(s[i]) then i else FindQuote(s, i + 1)
  }

  /** At most one match starts at a given position: the greedy non-quote runs leave no choice. */
  lemma MatchUnique(s: string, m1: Match, m2: Match)
    requires IsMatch(s, m1) && IsMatch(s, m2) && m1.start == m2.start
    ensures m1 == m2
  {
  }

  /** The pattern tried at position `p` alone. */
  function MatchAt(s: string, p: nat): (r: Option<Match>)
    requires p <= |s|
    ensures r.Some? ==> r.value.start == p && IsMatch(s, r.value)
  {
    if KeywordAt(s, p) then
      var o := FindQuote(s, p + |Keyword|);
      if o < |s| then
        var c := FindQuote(s, o + 1);
        if c < |s| && o + 1 < c then
          Some(Match(p, o, c))
        else
          None
      else
        None
    else
      None
  }

  /** When the pattern fails at `p`, no match starts at `p`. */
  lemma MatchAtComplete(s: string, p: nat)
    requires p <= |s| && MatchAt(s, p).None?
    ensures forall o, c :: !IsMatch(s, Match(p, o, c))
  {
  }

  /** `exec` with `lastIndex == pos`: the leftmost match starting at or after `pos`. */
  function NextMatch(s: string, pos: nat): (r: Option<Match>)
    requires pos <= |s|
    ensures r.Some? ==> IsMatch(s, r.value) && pos <= r.value.start
    ensures r.Some? ==> pos + 9 <= r.value.End() <= |s|
    decreases |s| - pos
  {
    match MatchAt(s, pos)
    case Some(m) => Some(m)
    case None => if pos == |s| then None else NextMatch(s, pos + 1)
  }

  /** The match found is the leftmost one: no match of the pattern starts between `pos` and it, and
      when nothing is found no match starts at or after `pos`. */
  lemma {:induction false} NextMatchLeftmost(s: string, pos: nat)
    requires pos <= |s|
    ensures NextMatch(s, pos).Some? ==>
      forall p, o, c :: pos <= p < NextMatch(s, pos).value.start ==> !IsMatch(s, Match(p, o, c))
    ensures NextMatch(s, pos).None? ==> forall p, o, c :: pos <= p ==> !IsMatch(s, Match(p, o, c))
    decreases |s| - pos
  {
    if MatchAt(s, pos).None? {
      MatchAtComplete(s, pos);
      if pos < |s| {
        NextMatchLeftmost(s, pos + 1);
      }
    }
  }

  /** The captures of the global pattern from `pos` on, in scan order: each search resumes where
      the previous match ended. */
  function CapturesFrom(s: string, pos: nat): (specs: seq<string>)
    requires pos <= |s|
    decreases |s| - pos
  {
    match NextMatch(s, pos)
    case None => []
    case Some(m) => [Capture(s, m)] + CapturesFrom(s, m.End())
  }

  predicate StartsWith(s: string, prefix: string) {
    |prefix| <= |s| && s[..|prefix|] == prefix
  }

  /** A relative or absolute path, which the import map does not resolve. */
  predicate IsRelative(spec: string) {
    StartsWith(spec, "./") || StartsWith(spec, "../") || StartsWith(spec, "/")
  }

  /** The specifiers of `specs` that are not relative or absolute paths, in order. */
  function Bare(specs: seq<string>): (r: seq<string>)
    ensures forall x :: x in r <==> x in specs && !IsRelative(x)
  {
    if specs == [] then []
    else
      var p, x := specs[..|specs| - 1], specs[|specs| - 1];
      assert specs == p + [x];
      Bare(p) + if IsRelative(x) then [] else [x]
  }

  lemma BareSnoc(specs: seq<string>, x: string)
    ensures Bare(specs + [x]) == Bare(specs) + if IsRelative(x) then [] else [x]
  {
    assert (specs + [x])[..|specs|] == specs;
  }

  /** `Bare` keeps the order of first occurrences: of two kept specifiers, the one first seen among the
      kept ones is first seen among all captures. */
  lemma {:induction false} BareKeepsFirstOccurrenceOrder(specs: seq<string>, a: string, b: string)
    requires a in Bare(specs) && b in Bare(specs)
    ensures a in specs && b in specs
    ensures FirstIndex(Bare(specs), a) < FirstIndex(Bare(specs), b) <==> FirstIndex(specs, a) < FirstIndex(specs, b)
  {
    var p, x := specs[..|specs| - 1], specs[|specs| - 1];
    assert specs == p + [x];
    var bp := Bare(p);
    BareSnoc(p, x);
    if a in bp && b in bp {
      BareKeepsFirstOccurrenceOrder(p, a, b);
      FirstIndexOfPrefix(p, x, a);
      FirstIndexOfPrefix(p, x, b);
      if !IsRelative(x) {
        assert Bare(specs) == bp + [x];
        FirstIndexOfPrefix(bp, x, a);
        FirstIndexOfPrefix(bp, x, b);
      } else {
        assert Bare(specs) == bp;
      }
    } else if a in bp {
      assert b == x && !IsRelative(x) && b !in p;
      FirstIndexOfPrefix(p, x, a);
      FirstIndexOfPrefix(bp, x, a);
      FirstIndexOfLast(p, x);
      FirstIndexOfLast(bp, x);
    } else if b in bp {
      assert a == x && !IsRelative(x) && a !in p;
      FirstIndexOfPrefix(p, x, b);
      FirstIndexOfPrefix(bp, x, b);
      FirstIndexOfLast(p, x);
      FirstIndexOfLast(bp, x);
    }
  }

  /** Adding one more capture to the set: relative paths are skipped, a bare specifier is added once. */
  lemma CollectStep(specs: seq<string>, x: string)
    ensures Dedup(Bare(specs + [x])) == if IsRelative(x) then Dedup(Bare(specs)) else Add(Dedup(Bare(specs)), x)
  {
    BareSnoc(specs, x);
    if !IsRelative(x) {
      DedupSnoc(Bare(specs), x);
    } else {
      assert Bare(specs + [x]) == Bare(specs);
    }
  }

  /** One round of the scan: the capture of the match found comes first, then the rest of the scan. */
  lemma CapturesStep(s: string, pos: nat)
    requires pos <= |s| && NextMatch(s, pos).Some?
    ensures CapturesFrom(s, pos) == [Capture(s, NextMatch(s, pos).value)] + CapturesFrom(s, NextMatch(s, pos).value.End())
  {
  }

  /** What `extractImports(input)` returns. */
  function ImportSpecifiers(input: string): seq<string> {
    Dedup(Bare(CapturesFrom(input, 0)))
  }

  /** `extractImports`: run the pattern to exhaustion and collect the bare captures in a set. */
  method ExtractImports(input: string) returns (specifiers: seq<string>)
    ensures specifiers == ImportSpecifiers(input)
  {
    specifiers := [];
    ghost var captured: seq<string> := [];
    var lastIndex := 0;
    var found := NextMatch(input, lastIndex);
    while found.Some?
      invariant lastIndex <= |input|
      invariant found == NextMatch(input, lastIndex)
      invariant CapturesFrom(input, 0) == captured + CapturesFrom(input, lastIndex)
      invariant specifiers == Dedup(Bare(captured))
      decreases |input| - lastIndex
    {
      var m := found.value;
      var spec := input[m.open + 1..m.close];
      ghost var rest := CapturesFrom(input, m.End());
      assert spec == Capture(input, m);
      CapturesStep(input, lastIndex);
      assert CapturesFrom(input, lastIndex) == [spec] + rest;
      AppendAssoc(captured, [spec], rest);
      CollectStep(captured, spec);
      if !IsRelative(spec) {
        if spec !in specifiers {
          specifiers := specifiers + [spec];
        }
      }
      captured := captured + [spec];
      lastIndex := m.End();
      found := NextMatch(input, lastIndex);
    }
    assert captured + [] == captured;
  }

  /** `spec` is captured by some match of the pattern: it stands between two quotes after an
      occurrence of the keyword, with no quote between the keyword and the opening quote. */
  ghost predicate FoundAfterKeyword(s: string, spec: string) {
    exists m :: IsMatch(s, m) && Capture(s, m) == spec
  }

  /** The result is exactly the bare captures of the scan. */
  lemma ImportSpecifiersAreBareCaptures(input: string, x: string)
    ensures x in ImportSpecifiers(input) <==> x in CapturesFrom(input, 0) && !IsRelative(x)
  {
  }

  /** No specifier in the result is a relative or absolute path. */
  lemma ImportSpecifiersNotRelative(input: string)
    ensures forall x :: x in ImportSpecifiers(input) ==> !StartsWith(x, "./") && !StartsWith(x, "../") && !StartsWith(x, "/")
  {
  }

  /** The result holds each specifier once, in the order in which the scan first captured it. */
  lemma ImportSpecifiersFirstSeenOrder(input: string)
    ensures NoDuplicates(ImportSpecifiers(input))
    ensures InFirstOccurrenceOrder(ImportSpecifiers(input), Bare(CapturesFrom(input, 0)))
    ensures InFirstOccurrenceOrder(ImportSpecifiers(input), CapturesFrom(input, 0))
  {
    var caps := CapturesFrom(input, 0);
    var r := ImportSpecifiers(input);
    DedupOrder(Bare(caps));
    forall i, j | 0 <= i < j < |r|
      ensures r[i] in caps && r[j] in caps && FirstIndex(caps, r[i]) < FirstIndex(caps, r[j])
    {
      BareKeepsFirstOccurrenceOrder(caps, r[i], r[j]);
    }
  }

  /** Every capture from `pos` on is non-empty, quote-free and captured by a match in the input. */
  lemma {:induction false} CapturesSound(input: string, pos: nat)
    requires pos <= |input|
    ensures forall x :: x in CapturesFrom(input, pos) ==> |x| > 0 && NoQuotes(x) && FoundAfterKeyword(input, x)
    decreases |input| - pos
  {
    match NextMatch(input, pos)
    case None =>
    case Some(m) =>
      CapturesSound(input, m.End());
      assert CapturesFrom(input, pos) == [Capture(input, m)] + CapturesFrom(input, m.End());
  }

  /** Every specifier in the result is non-empty, quote-free and captured by a match in the input. */
  lemma ImportSpecifiersSound(input: string)
    ensures forall x :: x in ImportSpecifiers(input) ==> |x| > 0 && NoQuotes(x) && FoundAfterKeyword(input, x)
  {
    CapturesSound(input, 0);
  }

  /** Input without the keyword yields no specifier. */
  lemma NoKeywordNoImports(input: string)
    requires forall p: nat :: !KeywordAt(input, p)
    ensures ImportSpecifiers(input) == []
  {
    assert CapturesFrom(input, 0) == [];
  }

  /** FindQuote lands on `j` when `j` is the first quote from `i` on. */
  lemma {:induction false} FindQuoteAt(s: string, i: nat, j: nat)
    requires j < |s| && IsQuote(s[j]) && NoQuoteBetween(s, i, j)
    ensures FindQuote(s, i) == j
    decreases j - i
  {
    if i < j {
      FindQuoteAt(s, i + 1, j);
    }
  }

  /** The keyword at `p`, quote-free runs up to the quotes at `o` and `c`, and a non-empty capture:
      the pattern matches at `p` with these quotes. */
  lemma MatchOfParts(s: string, p: nat, o: nat, c: nat)
    requires KeywordAt(s, p) && p + |Keyword| <= o && o + 1 < c < |s|
    requires NoQuoteBetween(s, p + |Keyword|, o) && IsQuote(s[o]) && NoQuoteBetween(s, o + 1, c) && IsQuote(s[c])
    ensures MatchAt(s, p) == Some(Match(p, o, c))
  {
    FindQuoteAt(s, p + |Keyword|, o);
    FindQuoteAt(s, o + 1, c);
  }

  /** The text of one `import` statement: the keyword, a gap and a single-quoted specifier. */
  function Statement(gap: string, spec: string): (text: string)
    ensures |text| == |Keyword| + |gap| + |spec| + 2
  {
    Keyword + gap + "'" + spec + "'"
  }

  /** A statement whose gap and specifier are quote-free, and whose specifier is non-empty, is
      matched at its first character wherever it stands. */
  lemma StatementMatch(s: string, p: nat, gap: string, spec: string)
    requires NoQuotes(gap) && spec != [] && NoQuotes(spec)
    requires p + |Statement(gap, spec)| <= |s| && s[p..p + |Statement(gap, spec)|] == Statement(gap, spec)
    ensures var o := p + |Keyword| + |gap|;
      && MatchAt(s, p) == Some(Match(p, o, o + 1 + |spec|))
      && Capture(s, Match(p, o, o + 1 + |spec|)) == spec
  {
    var t := Statement(gap, spec);
    var o, c := p + |Keyword| + |gap|, p + |t| - 1;
    assert forall k :: p <= k < p + |t| ==> s[k] == t[k - p];
    assert s[p..p + |Keyword|] == Keyword;
    forall k | p + |Keyword| <= k < o
      ensures !IsQuote(s[k])
    {
      assert t[k - p] == gap[k - p - |Keyword|];
    }
    forall k | o + 1 <= k < c
      ensures !IsQuote(s[k])
    {
      assert t[k - p] == spec[k - o - 1];
    }
    assert s[o] == t[o - p] == '\'' && s[c] == t[|t| - 1] == '\'';
    MatchOfParts(s, p, o, c);
    assert s[o + 1..c] == spec;
  }

  /** Positions holding no keyword are passed over by the scan. */
  lemma {:induction false} SkipNonKeywords(s: string, pos: nat, q: nat)
    requires pos <= q <= |s|
    requires forall p :: pos <= p < q ==> !KeywordAt(s, p)
    ensures NextMatch(s, pos) == NextMatch(s, q)
    decreases q - pos
  {
    if pos < q {
      assert MatchAt(s, pos) == None;
      SkipNonKeywords(s, pos + 1, q);
    }
  }

  /** Where the pattern matches at `pos`, the scan from `pos` finds that match. */
  lemma NextMatchHere(s: string, pos: nat)
    requires pos <= |s| && MatchAt(s, pos).Some?
    ensures NextMatch(s, pos) == MatchAt(s, pos)
  {
  }

  /** A scan that matches at the front, passes over a stretch without the keyword, and matches
      again up to the end of the input captures exactly the two specifiers. */
  lemma TwoMatches(s: string, m1: Match, m2: Match)
    requires m2.start < m2.End() == |s|
    requires MatchAt(s, 0) == Some(m1) && m1.End() <= m2.start && MatchAt(s, m2.start) == Some(m2)
    requires forall p :: m1.End() <= p < m2.start ==> !KeywordAt(s, p)
    ensures CapturesFrom(s, 0) == [Capture(s, m1), Capture(s, m2)]
  {
    NextMatchHere(s, 0);
    SkipNonKeywords(s, m1.End(), m2.start);
    NextMatchHere(s, m2.start);
    assert CapturesFrom(s, |s|) == [];
    CapturesStep(s, m1.End());
    CapturesStep(s, 0);
  }

  /** A bare and a relative specifier give the bare one alone. */
  lemma BareThenRelative(bare: string, relative: string)
    requires !IsRelative(bare) && IsRelative(relative)
    ensures Dedup(Bare([bare, relative])) == [bare]
  {
    BareSnoc([bare], relative);
    BareSnoc([], bare);
    assert [bare, relative] == [bare] + [relative];
    DedupSnoc([], bare);
  }

  const ExampleGap1 := " {x} from "
  const ExampleSpec1 := "left-pad"
  const ExampleSep := "; "
  const ExampleGap2 := " y from "
  const ExampleSpec2 := "./local"

  /** `import {x} from 'left-pad'; import y from './local'`, assembled from its parts. */
  const Example := Statement(ExampleGap1, ExampleSpec1) + ExampleSep + Statement(ExampleGap2, ExampleSpec2)

  lemma ExampleSpelling()
    ensures Statement(ExampleGap1, ExampleSpec1) == "import {x} from 'left-pad'"
    ensures Statement(ExampleGap2, ExampleSpec2) == "import y from './local'"
  {
  }

  lemma ExampleFirst()
    ensures MatchAt(Example, 0) == Some(Match(0, 16, 25)) && Capture(Example, Match(0, 16, 25)) == ExampleSpec1
  {
    assert Example[0..26] == Statement(ExampleGap1, ExampleSpec1);
    StatementMatch(Example, 0, ExampleGap1, ExampleSpec1);
  }

  lemma ExampleSecond()
    ensures MatchAt(Example, 28) == Some(Match(28, 42, 50)) && Capture(Example, Match(28, 42, 50)) == ExampleSpec2
  {
    assert Example[28..51] == Statement(ExampleGap2, ExampleSpec2);
    StatementMatch(Example, 28, ExampleGap2, ExampleSpec2);
  }

  lemma ExampleSeparator()
    ensures |Example| == 51 && forall p :: 26 <= p < 28 ==> !KeywordAt(Example, p)
  {
    var head := Statement(ExampleGap1, ExampleSpec1);
    assert |head| == 26 && Example[26] == ExampleSep[0] && Example[27] == ExampleSep[1];
    assert Keyword[0] == 'i' && ExampleSep[0] == ';' && ExampleSep[1] == ' ';
  }

  lemma ExampleCaptures()
    ensures CapturesFrom(Example, 0) == [ExampleSpec1, ExampleSpec2]
  {
    ExampleFirst();
    ExampleSecond();
    ExampleSeparator();
    TwoMatches(Example, Match(0, 16, 25), Match(28, 42, 50));
  }

  lemma ExampleKinds()
    ensures !IsRelative(ExampleSpec1) && IsRelative(ExampleSpec2)
  {
    assert ExampleSpec2[..2] == "./";
    assert ExampleSpec1[0] == 'l';
  }

  /** The bare specifier is kept and the relative one dropped. */
  lemma ExampleImports()
    ensures ImportSpecifiers(Example) == [ExampleSpec1]
  {
    ExampleCaptures();
    ExampleKinds();
    BareThenRelative(ExampleSpec1, ExampleSpec2);
  }

  const EsmHost := "https://esm.sh/"

  /** The URL of a specifier's bundled module. */
  function BundleUrl(spec: string): string {
    EsmHost + spec + "?bundle"
  }

  /** The URL prefix for the specifier's sub-path imports. */
  function PrefixUrl(spec: string): string {
    EsmHost + spec + "/"
  }

  /** The import map after the writes of `buildImportMap` for each specifier in turn. */
  function ImportMapOf(imports: seq<string>): map<string, string> {
    if imports == [] then map[]
    else
      var spec := imports[|imports| - 1];
      ImportMapOf(imports[..|imports| - 1])[spec := BundleUrl(spec)][spec + "/" := PrefixUrl(spec)]
  }

  /** `buildImportMap` without the JSON text: each specifier maps to its bundle URL and the
      specifier followed by a slash to its URL prefix. */
  method BuildImportMap(imports: seq<string>) returns (importMap: map<string, string>)
    ensures importMap == ImportMapOf(imports)
  {
    importMap := map[];
    for i := 0 to |imports|
      invariant importMap == ImportMapOf(imports[..i])
    {
      var spec := imports[i];
      assert imports[..i + 1][..i] == imports[..i];
      importMap := importMap[spec := BundleUrl(spec)];
      importMap := importMap[spec + "/" := PrefixUrl(spec)];
    }
    assert imports[..|imports|] == imports;
  }

  /** The keys are the specifiers and the specifiers followed by a slash, and nothing else. */
  lemma {:induction false} ImportMapKeys(imports: seq<string>)
    ensures ImportMapOf(imports).Keys == (set spec | spec in imports) + (set spec | spec in imports :: spec + "/")
  {
    if imports != [] {
      var p, spec := imports[..|imports| - 1], imports[|imports| - 1];
      assert imports == p + [spec];
      ImportMapKeys(p);
    }
  }

  /** Every value is the bundle URL or the URL prefix of some specifier. */
  lemma {:induction false} ImportMapValues(imports: seq<string>)
    ensures forall k :: k in ImportMapOf(imports) ==>
      ImportMapOf(imports)[k] in (set spec | spec in imports :: BundleUrl(spec)) + (set spec | spec in imports :: PrefixUrl(spec))
  {
    if imports != [] {
      var p, spec := imports[..|imports| - 1], imports[|imports| - 1];
      assert imports == p + [spec];
      ImportMapValues(p);
    }
  }

  /** No specifier in the list is another one followed by a slash. */
  predicate NoSlashCollision(imports: seq<string>) {
    forall a, b :: a in imports && b in imports ==> a != b + "/"
  }

  /** A string differs from itself with a slash appended (it is shorter). */
  lemma SlashLonger(a: string, b: string)
    requires a != b
    ensures a + "/" != b + "/"
  {
    if |a| == |b| {
      assert (a + "/")[..|a|] == a && (b + "/")[..|b|] == b;
    }
  }

  /** Without such collisions each specifier maps to its bundle and its slash form to its prefix. */
  lemma {:induction false} ImportMapEntries(imports: seq<string>)
    requires NoSlashCollision(imports)
    ensures forall spec :: spec in imports ==>
      && spec in ImportMapOf(imports) && ImportMapOf(imports)[spec] == BundleUrl(spec)
      && spec + "/" in ImportMapOf(imports) && ImportMapOf(imports)[spec + "/"] == PrefixUrl(spec)
  {
    if imports != [] {
      var p, last := imports[..|imports| - 1], imports[|imports| - 1];
      assert imports == p + [last];
      assert forall x :: x in p ==> x in imports;
      ImportMapEntries(p);
      var m := ImportMapOf(p)[last := BundleUrl(last)][last + "/" := PrefixUrl(last)];
      assert ImportMapOf(imports) == m;
      assert last != last + "/" by {
        assert |last + "/"| == |last| + 1;
      }
      forall spec | spec in imports
        ensures spec in m && m[spec] == BundleUrl(spec) && spec + "/" in m && m[spec + "/"] == PrefixUrl(spec)
      {
        if spec != last {
          assert spec in p && last in imports;
          assert spec != last + "/" && last != spec + "/";
          SlashLonger(spec, last);
          assert m[spec] == ImportMapOf(p)[spec];
          assert m[spec + "/"] == ImportMapOf(p)[spec + "/"];
        }
      }
    }
  }

  /** The empty list gives the empty map. */
  lemma ImportMapEmpty()
    ensures ImportMapOf([]) == map[]
  {
  }

  /** A bundle URL ends in `?bundle` and a prefix in a slash, so the two never coincide. */
  lemma BundleIsNotPrefix(a: string, b: string)
    ensures BundleUrl(a) != PrefixUrl(b)
  {
    var u, v := BundleUrl(a), PrefixUrl(b);
    assert u[|u| - 1] == "?bundle"[6] == 'e';
    assert v[|v| - 1] == '/';
  }

  /** A specifier that is another one followed by a slash replaces that one's prefix entry. */
  lemma ImportMapSlashCollision()
    ensures ImportMapOf(["a", "a/"])["a/"] == BundleUrl("a/")
    ensures ImportMapOf(["a", "a/"])["a/"] != PrefixUrl("a")
  {
    assert ["a", "a/"][..1] == ["a"];
    BundleIsNotPrefix("a/", "a");
  }
}
