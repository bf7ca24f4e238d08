/** `/generate`: the reply text of the language model is cut down to the
    span from its first `{` to its last `}` before `JSON.parse` reads it. */
module Generate {
  import opened Strings

  /** A `substring` argument limited to [0, len]. */
  function Clamp(i: int, len: nat): (c: nat)
    ensures c <= len
    ensures 0 <= i <= len ==> c == i
  {
    if i < 0 then 0 else if i > len then len else i
  }

  /** JavaScript `s.substring(start, end)`: both arguments are limited to
      [0, s.length], and they are swapped when start is past end. */
  function Substring(s: string, start: int, end: int): (r: string)
    ensures |r| <= |s|
  {
    var a := Clamp(start, |s|);
    var b := Clamp(end, |s|);
    if a <= b then s[a..b] else s[b..a]
  }

  /** The order of the two arguments does not matter; within bounds the
      result is the slice between them; a negative start counts as 0. */
  lemma SubstringFacts(s: string, start: int, end: int)
    ensures Substring(s, start, end) == Substring(s, end, start)
    ensures 0 <= start <= end <= |s| ==> Substring(s, start, end) == s[start..end]
    ensures start < 0 && 0 <= end <= |s| ==> Substring(s, start, end) == s[..end]
  {
  }

  /** The slice `/generate` hands to `JSON.parse`: `substring` from the
      first `{` to one past the last `}`. */
  function ExtractJson(data: string): (r: string)
    ensures |r| <= |data|
  {
    Substring(data, Find(data, "{"), FindLast(data, "}") + 1)
  }

  /** When a `{` comes before the last `}`, the slice runs from the first
      `{` to the last `}`: it starts with `{`, ends with `}`, has no `{`
      before its start and no `}` after its end in `data`. */
  lemma ExtractJsonBraces(data: string)
    requires 0 <= Find(data, "{") < FindLast(data, "}")
    ensures var r := ExtractJson(data);
      && r == data[Find(data, "{")..FindLast(data, "}") + 1]
      && |r| >= 2 && r[0] == '{' && r[|r| - 1] == '}'
      && (forall j :: 0 <= j < Find(data, "{") ==> data[j] != '{')
      && (forall j :: FindLast(data, "}") < j < |data| ==> data[j] != '}')
  {
    var i := Find(data, "{");
    var k := FindLast(data, "}");
    assert data[i..i + 1] == "{" && data[k..k + 1] == "}";
    assert data[i] == data[i..i + 1][0];
    assert data[k] == data[k..k + 1][0];
    forall j | 0 <= j < i ensures data[j] != '{' {
      assert !OccursAt(data, "{", j);
      assert data[j..j + 1] == [data[j]];
    }
    forall j | k < j < |data| ensures data[j] != '}' {
      assert !OccursAt(data, "}", j);
      assert data[j..j + 1] == [data[j]];
    }
  }

  /** The other cases, as the clamping and swapping rules make them: no
      braces at all gives the empty text; a `}` with no `{` gives everything
      up to that `}`; a `{` with no `}` gives everything before the `{`; a
      last `}` before the first `{` gives the text between them. */
  lemma ExtractJsonOtherCases(data: string)
    ensures Find(data, "{") < 0 && FindLast(data, "}") < 0 ==> ExtractJson(data) == ""
    ensures Find(data, "{") < 0 && FindLast(data, "}") >= 0 ==>
      ExtractJson(data) == data[..FindLast(data, "}") + 1]
    ensures Find(data, "{") >= 0 && FindLast(data, "}") < 0 ==>
      ExtractJson(data) == data[..Find(data, "{")]
    ensures 0 <= FindLast(data, "}") < Find(data, "{") ==>
      ExtractJson(data) == data[FindLast(data, "}") + 1..Find(data, "{")]
  {
    var i := Find(data, "{");
    var k := FindLast(data, "}");
    if k >= 0 {
      assert OccursAt(data, "}", k);
    }
  }
}
