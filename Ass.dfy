/** The two in-place edits the render job makes to the Advanced SubStation
    Alpha (ASS) subtitle file that ffmpeg produced from the SRT input: the
    `sed` that replaces every `Style:` line by one fixed style, and the
    `grep`/`sed` pair that forces `WrapStyle: 0`. A file is its sequence of
    lines (without their line terminators), which is how `sed` sees it. */
module Ass {
  import opened Strings

  /** The `Format:` order of the `[V4+ Styles]` section of an ASS v4+ script. */
  const StyleFormat: seq<string> := [
    "Name", "Fontname", "Fontsize", "PrimaryColour", "SecondaryColour",
    "OutlineColour", "BackColour", "Bold", "Italic", "Underline", "StrikeOut",
    "ScaleX", "ScaleY", "Spacing", "Angle", "BorderStyle", "Outline", "Shadow",
    "Alignment", "MarginL", "MarginR", "MarginV", "Encoding"]

  const StylePrefix := "Style:"

  /** The 23 comma-separated values of the replacement style line, with the
      request's `fontsize` and `outline` text in the 3rd and 18th place. */
  function StyleValues(fontsize: string, outline: string): (v: seq<string>)
    ensures |v| == |StyleFormat|
  {
    ["Default", "Montserrat ExtraBold", fontsize, "&H00FFFFFF", "&H00000000",
     "&H00000000", "&H64000000", "-1", "0", "0", "0", "100", "100", "0", "0",
     "1", "2", outline, "2", "10", "10", "10", "1"]
  }

  /** The text of the `c\` command: the line that replaces each style line. */
  function StyleLine(fontsize: string, outline: string): string {
    "Style: " + JoinOn(StyleValues(fontsize, outline), ',')
  }

  /** The values written one after another, separated by `sep`. */
  function JoinOn(vs: seq<string>, sep: char): string {
    if vs == [] then ""
    else if |vs| == 1 then vs[0]
    else vs[0] + [sep] + JoinOn(vs[1..], sep)
  }

  /** The pieces of `s` between occurrences of `sep` (as a reader of the
      style line separates its values). */
  function SplitOn(s: string, sep: char): (r: seq<string>)
    ensures |r| >= 1
    decreases |s|
  {
    var k := Find(s, [sep]);
    if k < 0 then [s] else [s[..k]] + SplitOn(s[k + 1..], sep)
  }

  /** Values that do not contain the separator are read back unchanged. */
  lemma {:induction false} SplitJoin(vs: seq<string>, sep: char)
    requires vs != []
    requires forall i :: 0 <= i < |vs| ==> sep !in vs[i]
    ensures SplitOn(JoinOn(vs, sep), sep) == vs
  {
    if |vs| == 1 {
      NoSeparator(vs[0], sep);
    } else {
      var rest := JoinOn(vs[1..], sep);
      var s := vs[0] + [sep] + rest;
      FirstSeparator(vs[0], rest, sep);
      assert s[..|vs[0]|] == vs[0];
      assert s[|vs[0]| + 1..] == rest;
      SplitJoin(vs[1..], sep);
    }
  }

  lemma NoSeparator(s: string, sep: char)
    requires sep !in s
    ensures Find(s, [sep]) < 0
  {
    forall j | 0 <= j && j + 1 <= |s| ensures !OccursAt(s, [sep], j) {
      assert s[j..j + 1][0] == s[j];
    }
  }

  lemma FirstSeparator(a: string, b: string, sep: char)
    requires sep !in a
    ensures Find(a + [sep] + b, [sep]) == |a|
  {
    var s := a + [sep] + b;
    assert s[|a|..|a| + 1] == [sep];
    assert OccursAt(s, [sep], |a|);
    forall j | 0 <= j < |a| ensures !OccursAt(s, [sep], j) {
      assert s[j] == a[j];
      assert s[j..j + 1][0] == s[j];
    }
  }

  /** The values of a style line, read back after its `Style: ` prefix. */
  function StyleFields(line: string): seq<string> {
    if |line| < 7 then [] else SplitOn(line[7..], ',')
  }

  /** The replacement line reads back as its 23 values. */
  lemma StyleLineRoundTrip(fontsize: string, outline: string)
    requires ',' !in fontsize && ',' !in outline
    ensures StyleFields(StyleLine(fontsize, outline)) == StyleValues(fontsize, outline)
  {
    var vs := StyleValues(fontsize, outline);
    assert forall i :: 0 <= i < |vs| ==> ',' !in vs[i];
    SplitJoin(vs, ',');
    assert StyleLine(fontsize, outline)[7..] == JoinOn(vs, ',');
  }

  /** Read back in the `[V4+ Styles]` format order, the replacement line has
      `fontsize` as its Fontsize, a fixed Outline of 2, and `outline` as its
      Shadow: the parameter named `outline` sets the shadow depth. */
  lemma StyleLineFields(fontsize: string, outline: string)
    requires ',' !in fontsize && ',' !in outline
    ensures var v := StyleFields(StyleLine(fontsize, outline));
      && |v| == |StyleFormat|
      && StyleFormat[2] == "Fontsize" && v[2] == fontsize
      && StyleFormat[16] == "Outline" && v[16] == "2"
      && StyleFormat[17] == "Shadow" && v[17] == outline
  {
    StyleLineRoundTrip(fontsize, outline);
  }

  /** The effect of `sed '/^Style:/c\<style line>'` on one line. */
  function Restyle(line: string, fontsize: string, outline: string): string {
    if StartsWith(line, StylePrefix) then StyleLine(fontsize, outline) else line
  }

  /** The style `sed` run on a whole file: every line that
      begins `Style:` becomes the fixed style line and every other line is
      kept, in place. */
  function StyleRewrite(lines: seq<string>, fontsize: string, outline: string): (r: seq<string>)
    ensures |r| == |lines|
    ensures forall i :: 0 <= i < |lines| ==>
      r[i] == (if StartsWith(lines[i], StylePrefix) then StyleLine(fontsize, outline) else lines[i])
  {
    if lines == [] then []
    else StyleRewrite(lines[..|lines| - 1], fontsize, outline)
         + [Restyle(lines[|lines| - 1], fontsize, outline)]
  }

  lemma StyleLineIsStyle(fontsize: string, outline: string)
    ensures StartsWith(StyleLine(fontsize, outline), StylePrefix)
  {
    assert StyleLine(fontsize, outline)[..6] == StylePrefix;
  }

  /** Running the style rewrite a second time changes nothing. */
  lemma StyleRewriteIdempotent(lines: seq<string>, fontsize: string, outline: string)
    ensures StyleRewrite(StyleRewrite(lines, fontsize, outline), fontsize, outline)
            == StyleRewrite(lines, fontsize, outline)
  {
    StyleLineIsStyle(fontsize, outline);
  }

  /** After the rewrite, every style line is the fixed one; the lines that
      are not style lines are exactly those of the input that were not. */
  lemma StyleRewriteLines(lines: seq<string>, fontsize: string, outline: string)
    ensures forall i :: 0 <= i < |lines| ==>
      (StartsWith(StyleRewrite(lines, fontsize, outline)[i], StylePrefix) <==>
       StartsWith(lines[i], StylePrefix))
    ensures forall i :: 0 <= i < |lines| && StartsWith(lines[i], StylePrefix) ==>
      StyleRewrite(lines, fontsize, outline)[i] == StyleLine(fontsize, outline)
  {
    StyleLineIsStyle(fontsize, outline);
  }

  const WrapKey := "WrapStyle"
  const WrapLine := "WrapStyle: 0"
  const ScriptInfo := "[Script Info]"

  /** `grep "WrapStyle"` matches the line. */
  predicate HasWrap(line: string) {
    Contains(line, WrapKey)
  }

  /** The quiet `grep` for `WrapStyle` succeeds on the file. */
  predicate AnyWrap(lines: seq<string>) {
    exists i :: 0 <= i < |lines| && HasWrap(lines[i])
  }

  // The substitution `s/WrapStyle.*/WrapStyle: 0/` on one line: the
  // leftmost `WrapStyle` and everything after it on the line become
  // `WrapStyle: 0`. The pattern is not anchored, so any text before it stays.
  function ReplaceWrap(line: string): (r: string)
    ensures !HasWrap(line) ==> r == line
    ensures HasWrap(line) ==>
      && r == line[..Find(line, WrapKey)] + WrapLine
      && Find(r, WrapKey) == Find(line, WrapKey)
      && EndsWith(r, WrapLine)
  {
    var k := Find(line, WrapKey);
    if k < 0 then line
    else
      var r := line[..k] + WrapLine;
      assert r[..k + |WrapKey|] == line[..k + |WrapKey|] by {
        assert line[..k + |WrapKey|] == line[..k] + line[k..k + |WrapKey|];
      }
      FindPrefixAgrees(line, r, WrapKey, k + |WrapKey|);
      assert r[|r| - |WrapLine|..] == WrapLine;
      r
  }

  /** Replacing twice is replacing once. */
  lemma ReplaceWrapIdempotent(line: string)
    ensures ReplaceWrap(ReplaceWrap(line)) == ReplaceWrap(line)
  {
    if HasWrap(line) {
      var r := ReplaceWrap(line);
      var k := Find(line, WrapKey);
      assert HasWrap(r);
      assert r[..k] == line[..k];
    }
  }

  /** The WrapStyle substitution run on a whole file. */
  function ReplaceWrapAll(lines: seq<string>): (r: seq<string>)
    ensures |r| == |lines|
    ensures forall i :: 0 <= i < |lines| ==> r[i] == ReplaceWrap(lines[i])
  {
    if lines == [] then []
    else ReplaceWrapAll(lines[..|lines| - 1]) + [ReplaceWrap(lines[|lines| - 1])]
  }

  /** What `sed '/^\[Script Info\]/a WrapStyle: 0'` prints for one line. */
  function AppendAfterHeader(line: string): seq<string> {
    if StartsWith(line, ScriptInfo) then [line, WrapLine] else [line]
  }

  /** The appending `sed` run on a whole file: a
      `WrapStyle: 0` line after every line that begins `[Script Info]`. */
  function InsertAfterHeaders(lines: seq<string>): seq<string> {
    if lines == [] then []
    else InsertAfterHeaders(lines[..|lines| - 1]) + AppendAfterHeader(lines[|lines| - 1])
  }

  /** The whole `grep … && sed … || sed …` command, when every program
      in it succeeds. */
  function WrapPatched(lines: seq<string>): seq<string> {
    if AnyWrap(lines) then ReplaceWrapAll(lines) else InsertAfterHeaders(lines)
  }

  /** Number of lines that `grep "WrapStyle"` matches. */
  function CountWrap(lines: seq<string>): nat {
    if lines == [] then 0
    else CountWrap(lines[..|lines| - 1]) + (if HasWrap(lines[|lines| - 1]) then 1 else 0)
  }

  /** Number of lines that begin `[Script Info]`. */
  function CountHeaders(lines: seq<string>): nat {
    if lines == [] then 0
    else CountHeaders(lines[..|lines| - 1]) + (if StartsWith(lines[|lines| - 1], ScriptInfo) then 1 else 0)
  }

  lemma WrapLineReplaced()
    ensures HasWrap(WrapLine) && Find(WrapLine, WrapKey) == 0
    ensures ReplaceWrap(WrapLine) == WrapLine
  {
    assert OccursAt(WrapLine, WrapKey, 0);
    assert WrapLine[..0] + WrapLine == WrapLine;
  }

  /** Every line of the inserting patch is an input line or `WrapStyle: 0`,
      the lines that match `WrapStyle` are the inserted ones, and there is
      one per header line. */
  lemma {:induction false} InsertAfterHeadersLines(lines: seq<string>)
    requires !AnyWrap(lines)
    ensures forall j :: 0 <= j < |InsertAfterHeaders(lines)| ==>
      InsertAfterHeaders(lines)[j] in lines || InsertAfterHeaders(lines)[j] == WrapLine
    ensures forall j :: 0 <= j < |InsertAfterHeaders(lines)| && HasWrap(InsertAfterHeaders(lines)[j]) ==>
      InsertAfterHeaders(lines)[j] == WrapLine
    ensures CountWrap(InsertAfterHeaders(lines)) == CountHeaders(lines)
  {
    if lines != [] {
      var init := lines[..|lines| - 1];
      var last := lines[|lines| - 1];
      assert !AnyWrap(init) by {
        forall i | 0 <= i < |init| ensures !HasWrap(init[i]) {
          assert init[i] == lines[i];
        }
      }
      assert !HasWrap(last);
      InsertAfterHeadersLines(init);
      WrapLineReplaced();
      var tail := AppendAfterHeader(last);
      CountWrapAppend(InsertAfterHeaders(init), tail);
      CountAppendAfterHeader(last);
      var r := InsertAfterHeaders(lines);
      var h := InsertAfterHeaders(init);
      forall j | 0 <= j < |r| ensures r[j] in lines || r[j] == WrapLine {
        if j < |h| {
          assert r[j] == h[j];
          assert h[j] in init || h[j] == WrapLine;
        } else {
          assert r[j] == tail[j - |h|];
        }
      }
    }
  }

  /** Where the append puts its lines: every `WrapStyle: 0` comes right
      after a line beginning `[Script Info]`, and every such line is right
      before a `WrapStyle: 0`. */
  lemma {:induction false} InsertAfterHeadersPlacement(lines: seq<string>)
    requires !AnyWrap(lines)
    ensures forall j :: 0 <= j < |InsertAfterHeaders(lines)| && InsertAfterHeaders(lines)[j] == WrapLine ==>
      0 < j && StartsWith(InsertAfterHeaders(lines)[j - 1], ScriptInfo)
    ensures forall j :: 0 <= j < |InsertAfterHeaders(lines)| && StartsWith(InsertAfterHeaders(lines)[j], ScriptInfo) ==>
      j + 1 < |InsertAfterHeaders(lines)| && InsertAfterHeaders(lines)[j + 1] == WrapLine
  {
    if lines != [] {
      var init := lines[..|lines| - 1];
      var last := lines[|lines| - 1];
      assert !AnyWrap(init) by {
        forall i | 0 <= i < |init| ensures !HasWrap(init[i]) {
          assert init[i] == lines[i];
        }
      }
      InsertAfterHeadersPlacement(init);
      WrapLineReplaced();
      assert !HasWrap(last);
      assert last != WrapLine;
      assert !StartsWith(WrapLine, ScriptInfo);
      var h := InsertAfterHeaders(init);
      var tail := AppendAfterHeader(last);
      var r := InsertAfterHeaders(lines);
      assert r == h + tail;
      forall j | 0 <= j < |r| && r[j] == WrapLine
        ensures 0 < j && StartsWith(r[j - 1], ScriptInfo)
      {
        if j < |h| {
          assert h[j] == r[j];
          assert r[j - 1] == h[j - 1];
        } else {
          assert r[j] == tail[j - |h|];
          assert j == |h| + 1 && tail == [last, WrapLine];
          assert r[j - 1] == tail[0];
        }
      }
      forall j | 0 <= j < |r| && StartsWith(r[j], ScriptInfo)
        ensures j + 1 < |r| && r[j + 1] == WrapLine
      {
        if j < |h| {
          assert h[j] == r[j];
          assert r[j + 1] == h[j + 1];
        } else {
          assert r[j] == tail[j - |h|];
          assert j == |h| && tail == [last, WrapLine];
          assert r[j + 1] == tail[1];
        }
      }
    }
  }

  /** The file with every `WrapStyle: 0` line taken out. */
  function DropWrapLines(lines: seq<string>): seq<string> {
    if lines == [] then []
    else DropWrapLines(lines[..|lines| - 1]) + (if lines[|lines| - 1] == WrapLine then [] else [lines[|lines| - 1]])
  }

  lemma {:induction false} DropWrapLinesAppend(a: seq<string>, b: seq<string>)
    ensures DropWrapLines(a + b) == DropWrapLines(a) + DropWrapLines(b)
    decreases |b|
  {
    if b != [] {
      var b' := b[..|b| - 1];
      assert (a + b)[..|a + b| - 1] == a + b';
      DropWrapLinesAppend(a, b');
    } else {
      assert a + b == a;
    }
  }

  lemma DropAppendAfterHeader(line: string)
    requires line != WrapLine
    ensures DropWrapLines(AppendAfterHeader(line)) == [line]
  {
    if StartsWith(line, ScriptInfo) {
      assert [line, WrapLine][..1] == [line];
      assert [line][..0] == [];
      assert DropWrapLines([line]) == [line];
    } else {
      assert [line][..0] == [];
    }
  }

  /** A file without `WrapStyle` has none in its first lines or its last. */
  lemma NoWrapPrefix(lines: seq<string>)
    requires lines != [] && !AnyWrap(lines)
    ensures !AnyWrap(lines[..|lines| - 1]) && !HasWrap(lines[|lines| - 1])
  {
    var init := lines[..|lines| - 1];
    forall i | 0 <= i < |init| ensures !HasWrap(init[i]) {
      assert init[i] == lines[i];
    }
  }

  /** The append keeps every line of the file, in order: taking the
      inserted lines out again gives back the file. */
  lemma {:induction false} InsertAfterHeadersKeeps(lines: seq<string>)
    requires !AnyWrap(lines)
    ensures DropWrapLines(InsertAfterHeaders(lines)) == lines
  {
    if lines != [] {
      var init := lines[..|lines| - 1];
      var last := lines[|lines| - 1];
      NoWrapPrefix(lines);
      WrapLineReplaced();
      calc {
        DropWrapLines(InsertAfterHeaders(lines));
        DropWrapLines(InsertAfterHeaders(init) + AppendAfterHeader(last));
        { DropWrapLinesAppend(InsertAfterHeaders(init), AppendAfterHeader(last)); }
        DropWrapLines(InsertAfterHeaders(init)) + DropWrapLines(AppendAfterHeader(last));
        { InsertAfterHeadersKeeps(init); DropAppendAfterHeader(last); }
        init + [last];
        lines;
      }
    }
  }

  lemma CountAppendAfterHeader(line: string)
    requires !HasWrap(line)
    ensures CountWrap(AppendAfterHeader(line)) == if StartsWith(line, ScriptInfo) then 1 else 0
  {
    WrapLineReplaced();
    assert CountWrap([line]) == CountWrap([]) by {
      assert [line][..0] == [];
    }
    if StartsWith(line, ScriptInfo) {
      assert [line, WrapLine][..1] == [line];
    }
  }

  lemma {:induction false} CountWrapAppend(a: seq<string>, b: seq<string>)
    ensures CountWrap(a + b) == CountWrap(a) + CountWrap(b)
    decreases |b|
  {
    if b == [] {
      assert a + b == a;
    } else {
      assert (a + b)[..|a + b| - 1] == a + b[..|b| - 1];
      CountWrapAppend(a, b[..|b| - 1]);
    }
  }

  lemma {:induction false} NoWrapCount(lines: seq<string>)
    requires !AnyWrap(lines)
    ensures CountWrap(lines) == 0
  {
    if lines != [] {
      var init := lines[..|lines| - 1];
      assert !AnyWrap(init) by {
        forall i | 0 <= i < |init| ensures !HasWrap(init[i]) {
          assert init[i] == lines[i];
        }
      }
      NoWrapCount(init);
    }
  }

  lemma {:induction false} NoHeadersUnchanged(lines: seq<string>)
    requires CountHeaders(lines) == 0
    ensures InsertAfterHeaders(lines) == lines
  {
    if lines != [] {
      NoHeadersUnchanged(lines[..|lines| - 1]);
    }
  }

  /** Replacing keeps exactly the lines that match. */
  lemma {:induction false} ReplaceWrapAllCount(lines: seq<string>)
    ensures CountWrap(ReplaceWrapAll(lines)) == CountWrap(lines)
  {
    if lines != [] {
      var r := ReplaceWrapAll(lines);
      assert r[..|r| - 1] == ReplaceWrapAll(lines[..|lines| - 1]);
      ReplaceWrapAllCount(lines[..|lines| - 1]);
    }
  }

  /** The patch never adds a second directive: when the file already has
      one, the matching lines are the same number as before; otherwise one
      `WrapStyle: 0` appears per `[Script Info]` line. Every line that
      matches afterwards ends in `WrapStyle: 0`. */
  lemma WrapPatchedCount(lines: seq<string>)
    ensures CountWrap(WrapPatched(lines))
            == if AnyWrap(lines) then CountWrap(lines) else CountHeaders(lines)
    ensures forall j :: 0 <= j < |WrapPatched(lines)| && HasWrap(WrapPatched(lines)[j]) ==>
      EndsWith(WrapPatched(lines)[j], WrapLine)
  {
    if AnyWrap(lines) {
      ReplaceWrapAllCount(lines);
    } else {
      InsertAfterHeadersLines(lines);
      assert WrapLine[|WrapLine| - |WrapLine|..] == WrapLine;
    }
  }

  /** Patching a patched file changes nothing. */
  lemma WrapPatchedIdempotent(lines: seq<string>)
    ensures WrapPatched(WrapPatched(lines)) == WrapPatched(lines)
  {
    var r := WrapPatched(lines);
    if AnyWrap(lines) {
      var i :| 0 <= i < |lines| && HasWrap(lines[i]);
      assert HasWrap(r[i]);
      forall j | 0 <= j < |r| ensures ReplaceWrap(r[j]) == r[j] {
        ReplaceWrapIdempotent(lines[j]);
      }
      assert ReplaceWrapAll(r) == r;
    } else {
      InsertAfterHeadersLines(lines);
      WrapLineReplaced();
      if AnyWrap(r) {
        assert ReplaceWrapAll(r) == r;
      } else {
        NoWrapCount(r);
        NoHeadersUnchanged(lines);
      }
    }
  }

  /** The substituting `sed` pass: each line in turn through the
      substitution. */
  method SubstituteWrap(lines: seq<string>) returns (output: seq<string>)
    ensures output == ReplaceWrapAll(lines)
  {
    output := [];
    var i := 0;
    while i < |lines|
      invariant 0 <= i <= |lines|
      invariant |output| == i
      invariant forall j :: 0 <= j < i ==> output[j] == ReplaceWrap(lines[j])
    {
      output := output + [ReplaceWrap(lines[i])];
      i := i + 1;
    }
  }

  /** The appending `sed` pass: each line printed, followed by
      `WrapStyle: 0` when it begins `[Script Info]`. */
  method AppendWrap(lines: seq<string>) returns (output: seq<string>)
    ensures output == InsertAfterHeaders(lines)
  {
    output := [];
    var i := 0;
    while i < |lines|
      invariant 0 <= i <= |lines|
      invariant output == InsertAfterHeaders(lines[..i])
    {
      var line := lines[i];
      assert lines[..i + 1][..i] == lines[..i];
      if StartsWith(line, ScriptInfo) {
        output := output + [line, WrapLine];
      } else {
        output := output + [line];
      }
      i := i + 1;
    }
    assert lines[..i] == lines;
  }

  /** The subtitle file on disk, edited in place by `sed -i`. */
  class AssFile {
    var lines: seq<string>

    constructor (contents: seq<string>)
      ensures lines == contents
    {
      lines := contents;
    }

    /** The style `sed`, editing the file in place. */
    method RewriteStyle(fontsize: string, outline: string)
      modifies this
      ensures lines == StyleRewrite(old(lines), fontsize, outline)
    {
      var output := [];
      var i := 0;
      while i < |lines|
        invariant 0 <= i <= |lines|
        invariant |output| == i
        invariant forall j :: 0 <= j < i ==> output[j] == Restyle(lines[j], fontsize, outline)
      {
        var line := lines[i];
        if StartsWith(line, StylePrefix) {
          output := output + [StyleLine(fontsize, outline)];
        } else {
          output := output + [line];
        }
        i := i + 1;
      }
      lines := output;
    }

    /** The quiet `grep` for `WrapStyle`. */
    method HasWrapStyle() returns (found: bool)
      ensures found <==> AnyWrap(lines)
    {
      found := false;
      var i := 0;
      while i < |lines| && !found
        invariant 0 <= i <= |lines|
        invariant found <==> exists j :: 0 <= j < i && HasWrap(lines[j])
      {
        found := HasWrap(lines[i]);
        i := i + 1;
      }
    }

    /** The WrapStyle command: the `grep`, then the substitution when it
        matched and the append after `[Script Info]` when it did not. */
    method PatchWrapStyle()
      modifies this
      ensures lines == WrapPatched(old(lines))
    {
      var found := HasWrapStyle();
      if found {
        lines := SubstituteWrap(lines);
      } else {
        lines := AppendWrap(lines);
      }
    }
  }
}
