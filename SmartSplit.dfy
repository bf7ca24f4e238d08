/** `smart_split` of the alignment service: it cuts a narration text into
    subtitle chunks, first after each major separator, then by halving any
    chunk of more than six words, trimming and dropping empty chunks on the
    way. */
module SmartSplit {
  import opened Strings
  import opened PyText

  /** The separators cut after, in the order the passes apply them. */
  const Separators: seq<string> := [". ", ", ", "; ", ": "]

  /** The words-per-chunk bound `split_chunk` is called with. */
  const AvgWords: nat := 6

  /** Separators usable for cutting: non-empty and ending in whitespace, so
      that every cut falls between two words. */
  predicate CutsAtSpace(seps: seq<string>) {
    forall k :: 0 <= k < |seps| ==> seps[k] != [] && IsSpace(seps[k][|seps[k]| - 1])
  }

  lemma SeparatorsCutAtSpace()
    ensures CutsAtSpace(Separators)
  {
  }

  /** A regular-expression split on the escaped separator inside a capture
      group: the text between the leftmost non-overlapping occurrences of
      `sep`, with each occurrence kept as an element of its own in between. */
  function ReSplit(s: string, sep: string): seq<string>
    requires sep != []
    decreases |s|
  {
    var k := Find(s, sep);
    if k < 0 then [s] else [s[..k], sep] + ReSplit(s[k + |sep|..], sep)
  }

  /** Reference for `split_with_separator`: `s` cut right after every
      occurrence of `sep`, an empty remainder dropped. */
  function CutAfter(s: string, sep: string): seq<string>
    requires sep != []
    decreases |s|
  {
    var k := Find(s, sep);
    if k < 0 then (if s == [] then [] else [s])
    else [s[..k + |sep|]] + CutAfter(s[k + |sep|..], sep)
  }

  /** One step of `re.split` and of `CutAfter`: both stop at the same
      first occurrence, and the text before it is never `sep` itself. */
  lemma ReSplitStep(s: string, sep: string)
    requires sep != []
    ensures var k := Find(s, sep);
      && (k < 0 ==> s != sep && ReSplit(s, sep) == [s])
      && (k >= 0 ==>
            && s[..k] != sep
            && ReSplit(s, sep) == [s[..k], sep] + ReSplit(s[k + |sep|..], sep)
            && CutAfter(s, sep) == [s[..k] + sep] + CutAfter(s[k + |sep|..], sep))
  {
    var k := Find(s, sep);
    if s == sep {
      assert OccursAt(s, sep, 0);
    }
    if k >= 0 {
      assert s[..k] + sep == s[..k + |sep|];
    }
  }

  /** The walk `split_with_separator` makes over the pieces of `re.split`,
      from a given buffer: text is buffered, and a separator piece flushes
      the buffer with the separator appended; a non-empty buffer left at
      the end is flushed too. */
  ghost function Flush(pieces: seq<string>, sep: string, buffer: string): seq<string> {
    if pieces == [] then (if buffer != "" then [buffer] else [])
    else if pieces[0] == sep then [buffer + sep] + Flush(pieces[1..], sep, "")
    else Flush(pieces[1..], sep, buffer + pieces[0])
  }

  /** The walk over the pieces of `re.split` cuts after every separator. */
  lemma {:induction false} FlushReSplit(s: string, sep: string)
    requires sep != []
    ensures Flush(ReSplit(s, sep), sep, "") == CutAfter(s, sep)
    decreases |s|
  {
    var k := Find(s, sep);
    ReSplitStep(s, sep);
    if k < 0 {
      assert [s][1..] == [];
      assert "" + s == s;
      assert Flush([s], sep, "") == Flush([], sep, s);
    } else {
      var tail := s[k + |sep|..];
      var r := ReSplit(tail, sep);
      assert ([s[..k], sep] + r)[1..] == [sep] + r;
      assert ([sep] + r)[1..] == r;
      assert "" + s[..k] == s[..k];
      FlushReSplit(tail, sep);
    }
  }

  /** The separator pass: walks the pieces of `ReSplit`, accumulating a
      buffer that is flushed after every separator. */
  method SplitWithSeparator(text: string, sep: string) returns (parts: seq<string>)
    requires sep != []
    ensures parts == CutAfter(text, sep)
  {
    var splitText := ReSplit(text, sep);
    FlushReSplit(text, sep);
    parts := [];
    var buffer := "";
    var i := 0;
    while i < |splitText|
      invariant 0 <= i <= |splitText|
      invariant parts + Flush(splitText[i..], sep, buffer) == CutAfter(text, sep)
    {
      var part := splitText[i];
      assert splitText[i..][1..] == splitText[i + 1..];
      if part == sep {
        buffer := buffer + part;
        assert (parts + [buffer]) + Flush(splitText[i + 1..], sep, "") == parts + ([buffer] + Flush(splitText[i + 1..], sep, ""));
        parts := parts + [buffer];
        buffer := "";
      } else {
        buffer := buffer + part;
      }
      i := i + 1;
    }
    if buffer != "" {
      parts := parts + [buffer];
    }
  }

  /** What `split_with_separator` promises: its parts put back together
      give the input, no part is empty, every part ends with `sep` except
      possibly the last, and `sep` occurs in a part only at its end. */
  lemma {:induction false} CutAfterParts(s: string, sep: string)
    requires sep != []
    ensures Concat(CutAfter(s, sep)) == s
    ensures forall k :: 0 <= k < |CutAfter(s, sep)| ==>
      var p := CutAfter(s, sep)[k];
      && p != []
      && (k < |CutAfter(s, sep)| - 1 ==> EndsWith(p, sep))
      && (Find(p, sep) < 0 || Find(p, sep) == |p| - |sep|)
    decreases |s|
  {
    var k := Find(s, sep);
    if k >= 0 {
      var head := s[..k + |sep|];
      var tail := s[k + |sep|..];
      var rest := CutAfter(tail, sep);
      var parts := CutAfter(s, sep);
      assert parts == [head] + rest;
      assert parts[1..] == rest;
      CutAfterParts(tail, sep);
      assert s == head + tail;
      FindPrefixAgrees(s, head, sep, k + |sep|);
      assert head[|head| - |sep|..] == sep;
      forall j | 0 <= j < |parts|
        ensures parts[j] != []
        ensures j < |parts| - 1 ==> EndsWith(parts[j], sep)
        ensures Find(parts[j], sep) < 0 || Find(parts[j], sep) == |parts[j]| - |sep|
      {
        if j > 0 {
          assert parts[j] == rest[j - 1];
        }
      }
    }
  }

  /** Every cut of `CutAfter` falls right after whitespace, so the words of
      the parts are the words of the input. */
  lemma {:induction false} CutAfterWords(s: string, sep: string)
    requires sep != [] && IsSpace(sep[|sep| - 1])
    ensures FlatWords(CutAfter(s, sep)) == Words(s)
    decreases |s|
  {
    var k := Find(s, sep);
    if k < 0 {
      if s == [] {
      } else {
        assert FlatWords([s]) == Words(s) + FlatWords([]);
      }
    } else {
      var head := s[..k + |sep|];
      var tail := s[k + |sep|..];
      assert s == head + tail;
      assert head[|head| - 1] == sep[|sep| - 1];
      WordsAppend(head, tail);
      CutAfterWords(tail, sep);
    }
  }

  /** One pass of step 1: every chunk of the list cut after `sep`. */
  function CutEach(cs: seq<string>, sep: string): seq<string>
    requires sep != []
  {
    if cs == [] then [] else CutAfter(cs[0], sep) + CutEach(cs[1..], sep)
  }

  /** Step 1: the passes for the separators, in the order given. */
  function CutAll(cs: seq<string>, seps: seq<string>): seq<string>
    requires CutsAtSpace(seps)
    decreases seps
  {
    if seps == [] then cs else CutAll(CutEach(cs, seps[0]), seps[1..])
  }

  lemma {:induction false} CutEachAppend(a: seq<string>, b: seq<string>, sep: string)
    requires sep != []
    ensures CutEach(a + b, sep) == CutEach(a, sep) + CutEach(b, sep)
  {
    if a == [] {
      assert a + b == b;
    } else {
      assert (a + b)[1..] == a[1..] + b;
      CutEachAppend(a[1..], b, sep);
    }
  }

  /** A pass keeps the concatenation of the whole list and its words. */
  lemma {:induction false} CutEachKeeps(cs: seq<string>, sep: string)
    requires sep != [] && IsSpace(sep[|sep| - 1])
    ensures Concat(CutEach(cs, sep)) == Concat(cs)
    ensures FlatWords(CutEach(cs, sep)) == FlatWords(cs)
  {
    if cs != [] {
      CutEachKeeps(cs[1..], sep);
      CutAfterParts(cs[0], sep);
      CutAfterWords(cs[0], sep);
      ConcatAppend(CutAfter(cs[0], sep), CutEach(cs[1..], sep));
      FlatWordsAppend(CutAfter(cs[0], sep), CutEach(cs[1..], sep));
    }
  }

  lemma {:induction false} CutAllKeeps(cs: seq<string>, seps: seq<string>)
    requires CutsAtSpace(seps)
    ensures Concat(CutAll(cs, seps)) == Concat(cs)
    ensures FlatWords(CutAll(cs, seps)) == FlatWords(cs)
    decreases seps
  {
    if seps != [] {
      CutEachKeeps(cs, seps[0]);
      CutAllKeeps(CutEach(cs, seps[0]), seps[1..]);
    }
  }

  /** Step 1 of `smart_split`: the passes for `". "`, `", "`, `"; "` and
      `": "` in that order, each replacing every chunk by its parts. */
  method SplitMajor(text: string) returns (splits: seq<string>)
    ensures splits == CutAll([text], Separators)
    ensures Concat(splits) == text
    ensures FlatWords(splits) == Words(text)
  {
    SeparatorsCutAtSpace();
    splits := [text];
    var s := 0;
    while s < |Separators|
      invariant 0 <= s <= |Separators|
      invariant CutAll(splits, Separators[s..]) == CutAll([text], Separators)
    {
      var sep := Separators[s];
      var newSplits := [];
      var j := 0;
      while j < |splits|
        invariant 0 <= j <= |splits|
        invariant newSplits == CutEach(splits[..j], sep)
      {
        var parts := SplitWithSeparator(splits[j], sep);
        PrefixSnoc(splits, j);
        CutEachAppend(splits[..j], [splits[j]], sep);
        newSplits := newSplits + parts;
        j := j + 1;
      }
      assert splits[..|splits|] == splits;
      assert Separators[s..][1..] == Separators[s + 1..];
      splits := newSplits;
      s := s + 1;
    }
    assert Separators[|Separators|..] == [];
    CutAllKeeps([text], Separators);
    assert FlatWords([text]) == Words(text) + FlatWords([]);
  }

  /** Every chunk holds at most `n` words. */
  predicate AtMostWords(cs: seq<string>, n: nat) {
    forall k :: 0 <= k < |cs| ==> |Words(cs[k])| <= n
  }

  lemma PrefixSnoc<T>(s: seq<T>, i: nat)
    requires i < |s|
    ensures s[..i + 1] == s[..i] + [s[i]]
  {
  }

  lemma AtMostWordsAppend(a: seq<string>, b: seq<string>, n: nat)
    requires AtMostWords(a, n) && AtMostWords(b, n)
    ensures AtMostWords(a + b, n)
  {
    forall k | 0 <= k < |a + b| ensures |Words((a + b)[k])| <= n {
      if k >= |a| {
        assert (a + b)[k] == b[k - |a|];
      }
    }
  }

  /** The final clean-up: every chunk trimmed and the ones left empty
      dropped; no word is lost. */
  function Clean(cs: seq<string>): (r: seq<string>)
    ensures forall k :: 0 <= k < |r| ==> r[k] != [] && Stripped(r[k])
    ensures FlatWords(r) == FlatWords(cs)
  {
    if cs == [] then []
    else
      var head := if Strip(cs[0]) != [] then [Strip(cs[0])] else [];
      FlatWordsAppend(head, Clean(cs[1..]));
      head + Clean(cs[1..])
  }

  lemma {:induction false} CleanKeepsBound(cs: seq<string>, n: nat)
    requires AtMostWords(cs, n)
    ensures AtMostWords(Clean(cs), n)
  {
    if cs != [] {
      CleanKeepsBound(cs[1..], n);
    }
  }

  /** Words per part for a chunk of `w` words: the chunk is cut into at least
      two parts, or `w` divided by the average rounded down when that is more,
      and the part size is `w` divided by that count rounded up. */
  function WordsPerPart(w: nat, avgWords: nat): nat
    requires avgWords > 0
  {
    var numParts := if w / avgWords < 2 then 2 else w / avgWords;
    (w + numParts - 1) / numParts
  }

  /** For a chunk of more words than the bound, the first part keeps at
      least one word and leaves at least one for the rest. */
  lemma PartSizes(w: nat, avgWords: nat)
    requires 0 < avgWords < w
    ensures 1 <= WordsPerPart(w, avgWords) < w
  {
    var n: nat := if w / avgWords < 2 then 2 else w / avgWords;
    assert WordsPerPart(w, avgWords) == (w + n - 1) / n;
    CeilingBounds(w, n);
  }

  /** Dividing at least two items into at least two parts, rounding up,
      gives at least one and fewer than all of them per part. */
  lemma CeilingBounds(w: nat, n: nat)
    requires w >= 2 && n >= 2
    ensures 1 <= (w + n - 1) / n < w
  {
    var k := (w + n - 1) / n;
    DivBounds(w + n - 1, n);
    MulMonotone(0, k, n);
    MulMonotone(k, w, n);
    MulMonotone(w - 1, 1, n - 1);
    assert w * n == (w - 1) * (n - 1) + w + n - 1;
  }

  lemma DivBounds(x: nat, d: nat)
    requires d > 0
    ensures (x / d) * d <= x < (x / d) * d + d
  {
  }

  lemma MulMonotone(a: int, b: int, c: nat)
    ensures a >= b ==> a * c >= b * c
  {
  }

  lemma FlatWordsSnoc(cs: seq<string>, c: string)
    ensures FlatWords(cs + [c]) == FlatWords(cs) + Words(c)
  {
    FlatWordsAppend(cs, [c]);
    assert FlatWords([c]) == Words(c) + FlatWords([]);
  }

  /** Re-joining the two halves of a word list with single spaces keeps
      each half's words, and the second half is never empty. */
  lemma Halves(w: seq<string>, k: nat)
    requires forall j :: 0 <= j < |w| ==> IsWord(w[j])
    requires k < |w|
    ensures Words(Join(w[..k])) == w[..k]
    ensures Words(Join(w[k..])) == w[k..]
    ensures Join(w[k..]) != ""
    ensures w[..k] + w[k..] == w
  {
    WordsOfJoin(w[..k]);
    WordsOfJoin(w[k..]);
  }

  /** The body of the `for c in chunks` loop of `split_chunk`: a chunk of
      at most `avgWords` words is kept; a longer one becomes its first
      `words_per_part` words and the rest, each re-joined with single
      spaces, and `split` is set. */
  method SplitOne(c: string, avgWords: nat) returns (pieces: seq<string>, split: bool)
    requires avgWords > 0
    requires Words(c) != []
    ensures FlatWords(pieces) == Words(c)
    ensures forall k :: 0 <= k < |pieces| ==> Words(pieces[k]) != []
    ensures |pieces| == if split then 2 else 1
    ensures !split <==> |Words(c)| <= avgWords
    ensures !split ==> pieces == [c]
  {
    var w := Words(c);
    FlatWordsSnoc([], c);
    assert [] + [c] == [c];
    if |w| <= avgWords {
      pieces, split := [c], false;
    } else {
      PartSizes(|w|, avgWords);
      var wordsPerPart := WordsPerPart(|w|, avgWords);
      var firstPart := Join(w[..wordsPerPart]);
      var restPart := Join(w[wordsPerPart..]);
      Halves(w, wordsPerPart);
      assert Words(firstPart) != [] by { assert w[..wordsPerPart][0] == w[0]; }
      pieces, split := [firstPart], false;
      FlatWordsSnoc([], firstPart);
      assert [] + [firstPart] == [firstPart];
      if restPart != "" {
        FlatWordsSnoc([firstPart], restPart);
        pieces := pieces + [restPart];
        split := true;
      }
    }
  }

  /** One round of the `while changed` loop of `split_chunk`: every chunk
      over the bound is replaced by its two halves; `changed` tells whether
      any chunk was replaced. */
  method SplitRound(chunks: seq<string>, avgWords: nat) returns (newChunks: seq<string>, changed: bool)
    requires avgWords > 0
    requires forall k :: 0 <= k < |chunks| ==> Words(chunks[k]) != []
    ensures FlatWords(newChunks) == FlatWords(chunks)
    ensures forall k :: 0 <= k < |newChunks| ==> Words(newChunks[k]) != []
    ensures |newChunks| >= |chunks| + (if changed then 1 else 0)
    ensures !changed ==> newChunks == chunks && AtMostWords(chunks, avgWords)
  {
    changed := false;
    newChunks := [];
    var i := 0;
    while i < |chunks|
      invariant 0 <= i <= |chunks|
      invariant FlatWords(newChunks) == FlatWords(chunks[..i])
      invariant forall k :: 0 <= k < |newChunks| ==> Words(newChunks[k]) != []
      invariant |newChunks| >= i + (if changed then 1 else 0)
      invariant !changed ==> newChunks == chunks[..i] && AtMostWords(newChunks, avgWords)
    {
      var c := chunks[i];
      var pieces, split := SplitOne(c, avgWords);
      PrefixSnoc(chunks, i);
      FlatWordsSnoc(chunks[..i], c);
      FlatWordsAppend(newChunks, pieces);
      newChunks := newChunks + pieces;
      changed := changed || split;
      i := i + 1;
    }
    assert chunks[..|chunks|] == chunks;
  }

  /** `split_chunk(chunk, avg_words)`: a chunk of at most `avgWords` words
      comes back alone and unchanged; a longer one is halved repeatedly,
      re-joined with single spaces, until no piece is over the bound. */
  method SplitChunk(chunk: string, avgWords: nat) returns (chunks: seq<string>)
    requires avgWords > 0
    ensures AtMostWords(chunks, avgWords)
    ensures FlatWords(chunks) == Words(chunk)
    ensures |Words(chunk)| <= avgWords ==> chunks == [chunk]
  {
    var words := Words(chunk);
    FlatWordsSnoc([], chunk);
    assert [] + [chunk] == [chunk];
    if |words| <= avgWords {
      return [chunk];
    }
    chunks := [chunk];
    var changed := true;
    while changed
      invariant FlatWords(chunks) == words
      invariant forall k :: 0 <= k < |chunks| ==> Words(chunks[k]) != []
      invariant |chunks| <= |words|
      invariant !changed ==> AtMostWords(chunks, avgWords)
      decreases |words| - |chunks| + (if changed then 1 else 0)
    {
      chunks, changed := SplitRound(chunks, avgWords);
      FlatWordsCount(chunks);
    }
  }

  /** `smart_split(text)`: every chunk is non-empty, trimmed and at most six
      words long, and the chunks hold exactly the words of `text.split()`,
      in order. */
  method SmartSplit(text: string) returns (chunks: seq<string>)
    ensures forall k :: 0 <= k < |chunks| ==> chunks[k] != [] && Stripped(chunks[k])
    ensures AtMostWords(chunks, AvgWords)
    ensures FlatWords(chunks) == Words(text)
  {
    var splits := SplitMajor(text);
    splits := Clean(splits);
    var finalChunks := [];
    var i := 0;
    while i < |splits|
      invariant 0 <= i <= |splits|
      invariant FlatWords(finalChunks) == FlatWords(splits[..i])
      invariant AtMostWords(finalChunks, AvgWords)
    {
      var pieces := SplitChunk(splits[i], AvgWords);
      PrefixSnoc(splits, i);
      FlatWordsSnoc(splits[..i], splits[i]);
      FlatWordsAppend(finalChunks, pieces);
      AtMostWordsAppend(finalChunks, pieces, AvgWords);
      finalChunks := finalChunks + pieces;
      i := i + 1;
    }
    assert splits[..|splits|] == splits;
    CleanKeepsBound(finalChunks, AvgWords);
    chunks := Clean(finalChunks);
  }
}
