/** The user-agent sheet (src/box_style.c): tag names are normalised, looked up in a sorted table by binary
  * search, and shipped across the render IPC as a compact code that must lose no vertical margin.
  */
module TagSheet {
  import opened Wrappers

  const BX_TAG_MAX: nat := 32

  /* ---------- normalising a tag name ---------- */

  predicate IsWs(c: char) {
    c == ' ' || c == '\t' || c == '\n' || c == '\r' || c == 12 as char || c == 11 as char
  }

  function Lc(c: char): char {
    if 'A' <= c <= 'Z' then c + ('a' - 'A') else c
  }

  function TrimLeft(s: string): string {
    if s != "" && IsWs(s[0]) then TrimLeft(s[1..]) else s
  }

  function TrimRight(s: string): (r: string)
    ensures r <= s
  {
    if s != "" && IsWs(s[|s| - 1]) then TrimRight(s[..|s| - 1]) else s
  }

  function Lowered(s: string): string {
    seq(|s|, i requires 0 <= i < |s| => Lc(s[i]))
  }

  // The trimmed, lower-cased name, if there is one and it fits with its terminator.
  function Normalized(tag: Option<string>, size: nat): Option<string> {
    if tag.None? then None
    else
      var s := TrimRight(TrimLeft(tag.value));
      if s == "" || |s| + 1 > size then None else Some(Lowered(s))
  }

  // copy_lower_trim, on the characters of a C string.
  method CopyLowerTrim(tag: Option<string>, out: array<char>) returns (ok: bool, len: nat)
    modifies out
    ensures ok <==> Normalized(tag, out.Length).Some?
    ensures ok ==> len < out.Length && out[..len] == Normalized(tag, out.Length).value && out[len] == 0 as char
  {
    len := 0;
    if tag.None? {
      return false, len;
    }
    var s := tag.value;
    var start := 0;
    while start < |s| && IsWs(s[start])
      invariant start <= |s| && TrimLeft(s[start..]) == TrimLeft(s)
    {
      assert s[start..][1..] == s[start + 1..];
      start := start + 1;
    }
    var t := s[start..];
    assert TrimLeft(s) == t;
    var end := |t|;
    assert t[..end] == t;
    while end > 0 && IsWs(t[end - 1])
      invariant 0 <= end <= |t| && TrimRight(t[..end]) == TrimRight(t)
    {
      assert t[..end][..end - 1] == t[..end - 1];
      end := end - 1;
    }
    assert TrimRight(t) == t[..end];
    if end == 0 || end + 1 > out.Length {
      return false, len;
    }
    for i := 0 to end
      invariant forall k :: 0 <= k < i ==> out[k] == Lc(t[k])
    {
      out[i] := Lc(t[i]);
    }
    out[end] := 0 as char;
    assert out[..end] == Lowered(t[..end]);
    return true, end;
  }

  // The white space of the C locale.
  predicate IsSpaces(s: string) {
    forall i :: 0 <= i < |s| ==> s[i] in [' ', '\t', '\n', '\r', 11 as char, 12 as char]
  }

  // t is m with its capital letters made small.
  predicate IsSmall(t: string, m: string) {
    |t| == |m| && forall i :: 0 <= i < |m| ==>
      t[i] as int == m[i] as int + if 'A' <= m[i] <= 'Z' then 32 else 0
  }

  // A name between white space is normalised to its small letters if it has fewer than `size` characters, and is
  // none otherwise; and so is white space alone.
  lemma NormalizedIff(before: string, m: string, after: string, size: nat)
    requires IsSpaces(before) && IsSpaces(after) && (m != "" ==> !IsSpaces([m[0]]) && !IsSpaces([m[|m| - 1]]))
    ensures var norm := Normalized(Some(before + m + after), size);
            (norm.Some? <==> m != "" && |m| < size) && (norm.Some? ==> IsSmall(norm.value, m))
  {
    hide TrimLeft, TrimRight;
    if m == "" {
      assert before + m + after == before + after;
      LeftOfSpaces(before, after);
      AllSpaces(after);
      NothingRight();
    } else {
      assert before + m + after == before + (m + after);
      LeftOfSpaces(before, m + after);
      NothingLeft(m + after);
      RightOfSpaces(m, after);
      SmallLetters(m);
    }
  }

  lemma {:induction false} LeftOfSpaces(before: string, s: string)
    requires IsSpaces(before)
    ensures TrimLeft(before + s) == TrimLeft(s)
    decreases |before|
  {
    if before == "" {
      assert before + s == s;
    } else {
      assert (before + s)[1..] == before[1..] + s && IsWs((before + s)[0]);
      LeftOfSpaces(before[1..], s);
    }
  }

  lemma {:induction false} AllSpaces(s: string)
    requires IsSpaces(s)
    ensures TrimLeft(s) == ""
    decreases |s|
  {
    if s != "" {
      AllSpaces(s[1..]);
    }
  }

  lemma NothingRight()
    ensures TrimRight("") == ""
  {
  }

  lemma NothingLeft(s: string)
    requires s != "" && !IsSpaces([s[0]])
    ensures TrimLeft(s) == s
  {
    assert [s[0]][0] == s[0];
  }

  lemma {:induction false} RightOfSpaces(m: string, after: string)
    requires IsSpaces(after) && m != "" && !IsSpaces([m[|m| - 1]])
    ensures TrimRight(m + after) == m
    decreases |after|
  {
    var s := m + after;
    if after == "" {
      assert s == m && [m[|m| - 1]][0] == m[|m| - 1];
    } else {
      assert s[|s| - 1] == after[|after| - 1] && s[..|s| - 1] == m + after[..|after| - 1];
      RightOfSpaces(m, after[..|after| - 1]);
    }
  }

  lemma SmallLetters(m: string)
    ensures IsSmall(Lowered(m), m)
  {
  }

  // In the sheet's lookups a name has at most 31 characters.
  lemma LongestName(m: string)
    requires m != "" && !IsSpaces([m[0]]) && !IsSpaces([m[|m| - 1]])
    ensures Normalized(Some(m), BX_TAG_MAX).Some? <==> |m| <= 31
  {
    NormalizedIff("", m, "", BX_TAG_MAX);
    assert "" + m + "" == m;
  }

  // A short name of lower-case letters and digits is its own normal form.
  lemma PlainIsNormal(name: string)
    requires 0 < |name| < BX_TAG_MAX
    requires forall i :: 0 <= i < |name| ==> 'a' <= name[i] <= 'z' || '0' <= name[i] <= '9'
    ensures Normalized(Some(name), BX_TAG_MAX) == Some(name)
  {
    assert !IsWs(name[0]) && !IsWs(name[|name| - 1]);
    assert Lowered(name) == name;
  }

  /* ---------- strcmp ---------- */

  function StrCmp(a: string, b: string): int
    decreases |a|
  {
    if a == "" && b == "" then 0
    else if a == "" then -1
    else if b == "" then 1
    else if a[0] != b[0] then (if a[0] < b[0] then -1 else 1)
    else StrCmp(a[1..], b[1..])
  }

  lemma {:induction false} StrCmpOrder(a: string, b: string)
    ensures StrCmp(a, b) == 0 <==> a == b
    ensures StrCmp(b, a) == -StrCmp(a, b)
    decreases |a|
  {
    if a != "" && b != "" && a[0] == b[0] {
      StrCmpOrder(a[1..], b[1..]);
      assert a == [a[0]] + a[1..] && b == [b[0]] + b[1..];
    }
  }

  lemma {:induction false} StrCmpTransitive(a: string, b: string, c: string)
    requires StrCmp(a, b) < 0 && StrCmp(b, c) < 0
    ensures StrCmp(a, c) < 0
    decreases |a|
  {
    if a != "" && b != "" && c != "" && a[0] == b[0] && b[0] == c[0] {
      StrCmpTransitive(a[1..], b[1..], c[1..]);
    }
  }

  /* ---------- the sheet ---------- */

  datatype Display = DisplayBlock | DisplayInline | DisplayInlineBlock | DisplayListItem | DisplayNone

  // In em.
  datatype Edges = Edges(top: real, right: real, bottom: real, left: real)

  datatype Box = Box(display: Display, margin: Edges, padding: Edges)

  datatype Row = Row(name: string, box: Box)

  const ZERO := Edges(0.0, 0.0, 0.0, 0.0)

  function Neutral(): Box { Box(DisplayInline, ZERO, ZERO) }

  const TAG_N: nat := 67

  // TAG_TABLE
  function RowAt(i: nat): Row
    requires i < TAG_N
  {
    match i
    case 0 => Row("a", Box(DisplayInline, ZERO, ZERO))
    case 1 => Row("address", Box(DisplayBlock, ZERO, ZERO))
    case 2 => Row("article", Box(DisplayBlock, ZERO, ZERO))
    case 3 => Row("aside", Box(DisplayBlock, ZERO, ZERO))
    case 4 => Row("b", Box(DisplayInline, ZERO, ZERO))
    case 5 => Row("base", Box(DisplayNone, ZERO, ZERO))
    case 6 => Row("blockquote", Box(DisplayBlock, Edges(1.0, 2.5, 1.0, 2.5), ZERO))
    case 7 => Row("body", Box(DisplayBlock, ZERO, ZERO))
    case 8 => Row("button", Box(DisplayInlineBlock, ZERO, ZERO))
    case 9 => Row("caption", Box(DisplayBlock, ZERO, ZERO))
    case 10 => Row("code", Box(DisplayInline, ZERO, ZERO))
    case 11 => Row("col", Box(DisplayNone, ZERO, ZERO))
    case 12 => Row("colgroup", Box(DisplayNone, ZERO, ZERO))
    case 13 => Row("dd", Box(DisplayBlock, Edges(0.0, 0.0, 0.0, 2.5), ZERO))
    case 14 => Row("details", Box(DisplayBlock, ZERO, ZERO))
    case 15 => Row("div", Box(DisplayBlock, ZERO, ZERO))
    case 16 => Row("dl", Box(DisplayBlock, Edges(1.0, 0.0, 1.0, 0.0), ZERO))
    case 17 => Row("dt", Box(DisplayBlock, ZERO, ZERO))
    case 18 => Row("em", Box(DisplayInline, ZERO, ZERO))
    case 19 => Row("fieldset", Box(DisplayBlock, ZERO, ZERO))
    case 20 => Row("figcaption", Box(DisplayBlock, ZERO, ZERO))
    case 21 => Row("figure", Box(DisplayBlock, Edges(1.0, 2.5, 1.0, 2.5), ZERO))
    case 22 => Row("footer", Box(DisplayBlock, ZERO, ZERO))
    case 23 => Row("form", Box(DisplayBlock, ZERO, ZERO))
    case 24 => Row("h1", Box(DisplayBlock, Edges(0.67, 0.0, 0.67, 0.0), ZERO))
    case 25 => Row("h2", Box(DisplayBlock, Edges(0.83, 0.0, 0.83, 0.0), ZERO))
    case 26 => Row("h3", Box(DisplayBlock, Edges(1.0, 0.0, 1.0, 0.0), ZERO))
    case 27 => Row("h4", Box(DisplayBlock, Edges(1.33, 0.0, 1.33, 0.0), ZERO))
    case 28 => Row("h5", Box(DisplayBlock, Edges(1.67, 0.0, 1.67, 0.0), ZERO))
    case 29 => Row("h6", Box(DisplayBlock, Edges(2.33, 0.0, 2.33, 0.0), ZERO))
    case 30 => Row("head", Box(DisplayNone, ZERO, ZERO))
    case 31 => Row("header", Box(DisplayBlock, ZERO, ZERO))
    case 32 => Row("hr", Box(DisplayBlock, Edges(0.5, 0.0, 0.5, 0.0), ZERO))
    case 33 => Row("i", Box(DisplayInline, ZERO, ZERO))
    case 34 => Row("img", Box(DisplayInlineBlock, ZERO, ZERO))
    case 35 => Row("input", Box(DisplayInlineBlock, ZERO, ZERO))
    case 36 => Row("label", Box(DisplayInline, ZERO, ZERO))
    case 37 => Row("legend", Box(DisplayBlock, ZERO, ZERO))
    case 38 => Row("li", Box(DisplayListItem, ZERO, ZERO))
    case 39 => Row("link", Box(DisplayNone, ZERO, ZERO))
    case 40 => Row("main", Box(DisplayBlock, ZERO, ZERO))
    case 41 => Row("menu", Box(DisplayBlock, Edges(1.0, 0.0, 1.0, 0.0), Edges(0.0, 0.0, 0.0, 2.5)))
    case 42 => Row("meta", Box(DisplayNone, ZERO, ZERO))
    case 43 => Row("nav", Box(DisplayBlock, ZERO, ZERO))
    case 44 => Row("ol", Box(DisplayBlock, Edges(1.0, 0.0, 1.0, 0.0), Edges(0.0, 0.0, 0.0, 2.5)))
    case 45 => Row("p", Box(DisplayBlock, Edges(1.0, 0.0, 1.0, 0.0), ZERO))
    case 46 => Row("pre", Box(DisplayBlock, Edges(1.0, 0.0, 1.0, 0.0), ZERO))
    case 47 => Row("script", Box(DisplayNone, ZERO, ZERO))
    case 48 => Row("section", Box(DisplayBlock, ZERO, ZERO))
    case 49 => Row("select", Box(DisplayInlineBlock, ZERO, ZERO))
    case 50 => Row("small", Box(DisplayInline, ZERO, ZERO))
    case 51 => Row("span", Box(DisplayInline, ZERO, ZERO))
    case 52 => Row("strong", Box(DisplayInline, ZERO, ZERO))
    case 53 => Row("style", Box(DisplayNone, ZERO, ZERO))
    case 54 => Row("sub", Box(DisplayInline, ZERO, ZERO))
    case 55 => Row("summary", Box(DisplayBlock, ZERO, ZERO))
    case 56 => Row("sup", Box(DisplayInline, ZERO, ZERO))
    case 57 => Row("table", Box(DisplayBlock, ZERO, ZERO))
    case 58 => Row("tbody", Box(DisplayBlock, ZERO, ZERO))
    case 59 => Row("td", Box(DisplayBlock, ZERO, ZERO))
    case 60 => Row("textarea", Box(DisplayInlineBlock, ZERO, ZERO))
    case 61 => Row("tfoot", Box(DisplayBlock, ZERO, ZERO))
    case 62 => Row("th", Box(DisplayBlock, ZERO, ZERO))
    case 63 => Row("thead", Box(DisplayBlock, ZERO, ZERO))
    case 64 => Row("title", Box(DisplayNone, ZERO, ZERO))
    case 65 => Row("tr", Box(DisplayBlock, ZERO, ZERO))
    case _ => Row("ul", Box(DisplayBlock, Edges(1.0, 0.0, 1.0, 0.0), Edges(0.0, 0.0, 0.0, 2.5)))
  }

  lemma SortedRows0(i: nat)
    requires 0 <= i < 8
    ensures StrCmp(RowAt(i).name, RowAt(i + 1).name) < 0
  {
    assert StrCmp("a", "address") < 0;
    assert StrCmp("address", "article") < 0;
    assert StrCmp("article", "aside") < 0;
    assert StrCmp("aside", "b") < 0;
    assert StrCmp("b", "base") < 0;
    assert StrCmp("base", "blockquote") < 0;
    assert StrCmp("blockquote", "body") < 0;
    assert StrCmp("body", "button") < 0;
  }

  lemma SortedRows1(i: nat)
    requires 8 <= i < 16
    ensures StrCmp(RowAt(i).name, RowAt(i + 1).name) < 0
  {
    assert StrCmp("button", "caption") < 0;
    assert StrCmp("caption", "code") < 0;
    assert StrCmp("code", "col") < 0;
    assert StrCmp("col", "colgroup") < 0;
    assert StrCmp("colgroup", "dd") < 0;
    assert StrCmp("dd", "details") < 0;
    assert StrCmp("details", "div") < 0;
    assert StrCmp("div", "dl") < 0;
  }

  lemma SortedRows2(i: nat)
    requires 16 <= i < 24
    ensures StrCmp(RowAt(i).name, RowAt(i + 1).name) < 0
  {
    assert StrCmp("dl", "dt") < 0;
    assert StrCmp("dt", "em") < 0;
    assert StrCmp("em", "fieldset") < 0;
    assert StrCmp("fieldset", "figcaption") < 0;
    assert StrCmp("figcaption", "figure") < 0;
    assert StrCmp("figure", "footer") < 0;
    assert StrCmp("footer", "form") < 0;
    assert StrCmp("form", "h1") < 0;
  }

  lemma SortedRows3(i: nat)
    requires 24 <= i < 32
    ensures StrCmp(RowAt(i).name, RowAt(i + 1).name) < 0
  {
    assert StrCmp("h1", "h2") < 0;
    assert StrCmp("h2", "h3") < 0;
    assert StrCmp("h3", "h4") < 0;
    assert StrCmp("h4", "h5") < 0;
    assert StrCmp("h5", "h6") < 0;
    assert StrCmp("h6", "head") < 0;
    assert StrCmp("head", "header") < 0;
    assert StrCmp("header", "hr") < 0;
  }

  lemma SortedRows4(i: nat)
    requires 32 <= i < 40
    ensures StrCmp(RowAt(i).name, RowAt(i + 1).name) < 0
  {
    assert StrCmp("hr", "i") < 0;
    assert StrCmp("i", "img") < 0;
    assert StrCmp("img", "input") < 0;
    assert StrCmp("input", "label") < 0;
    assert StrCmp("label", "legend") < 0;
    assert StrCmp("legend", "li") < 0;
    assert StrCmp("li", "link") < 0;
    assert StrCmp("link", "main") < 0;
  }

  lemma SortedRows5(i: nat)
    requires 40 <= i < 48
    ensures StrCmp(RowAt(i).name, RowAt(i + 1).name) < 0
  {
    assert StrCmp("main", "menu") < 0;
    assert StrCmp("menu", "meta") < 0;
    assert StrCmp("meta", "nav") < 0;
    assert StrCmp("nav", "ol") < 0;
    assert StrCmp("ol", "p") < 0;
    assert StrCmp("p", "pre") < 0;
    assert StrCmp("pre", "script") < 0;
    assert StrCmp("script", "section") < 0;
  }

  lemma SortedRows6(i: nat)
    requires 48 <= i < 56
    ensures StrCmp(RowAt(i).name, RowAt(i + 1).name) < 0
  {
    assert StrCmp("section", "select") < 0;
    assert StrCmp("select", "small") < 0;
    assert StrCmp("small", "span") < 0;
    assert StrCmp("span", "strong") < 0;
    assert StrCmp("strong", "style") < 0;
    assert StrCmp("style", "sub") < 0;
    assert StrCmp("sub", "summary") < 0;
    assert StrCmp("summary", "sup") < 0;
  }

  lemma SortedRows7(i: nat)
    requires 56 <= i < 64
    ensures StrCmp(RowAt(i).name, RowAt(i + 1).name) < 0
  {
    assert StrCmp("sup", "table") < 0;
    assert StrCmp("table", "tbody") < 0;
    assert StrCmp("tbody", "td") < 0;
    assert StrCmp("td", "textarea") < 0;
    assert StrCmp("textarea", "tfoot") < 0;
    assert StrCmp("tfoot", "th") < 0;
    assert StrCmp("th", "thead") < 0;
    assert StrCmp("thead", "title") < 0;
  }

  lemma SortedRows8(i: nat)
    requires 64 <= i < 66
    ensures StrCmp(RowAt(i).name, RowAt(i + 1).name) < 0
  {
    assert StrCmp("title", "tr") < 0;
    assert StrCmp("tr", "ul") < 0;
  }

  lemma NeighboursSorted(i: nat)
    requires i + 1 < TAG_N
    ensures StrCmp(RowAt(i).name, RowAt(i + 1).name) < 0
  {
    hide StrCmp, RowAt;
    if i < 8 {
      SortedRows0(i);
    } else if i < 16 {
      SortedRows1(i);
    } else if i < 24 {
      SortedRows2(i);
    } else if i < 32 {
      SortedRows3(i);
    } else if i < 40 {
      SortedRows4(i);
    } else if i < 48 {
      SortedRows5(i);
    } else if i < 56 {
      SortedRows6(i);
    } else if i < 64 {
      SortedRows7(i);
    } else {
      SortedRows8(i);
    }
  }

  // The table is strictly sorted, so the names are distinct.
  lemma {:induction false} TableSorted(i: nat, j: nat)
    requires i < j < TAG_N
    ensures StrCmp(RowAt(i).name, RowAt(j).name) < 0
    decreases j
  {
    hide StrCmp, RowAt;
    NeighboursSorted(j - 1);
    if i < j - 1 {
      TableSorted(i, j - 1);
      StrCmpTransitive(RowAt(i).name, RowAt(j - 1).name, RowAt(j).name);
    }
  }

  // Linear lookup from row i on.
  function Find(key: string, i: nat): Option<nat>
    requires i <= TAG_N
    ensures Find(key, i).Some? ==> i <= Find(key, i).value < TAG_N && RowAt(Find(key, i).value).name == key
    decreases TAG_N - i
  {
    if i == TAG_N then None else if RowAt(i).name == key then Some(i) else Find(key, i + 1)
  }

  lemma {:induction false} FindMisses(key: string, i: nat, k: nat)
    requires i <= k < TAG_N && RowAt(k).name == key
    ensures Find(key, i).Some?
    decreases k - i
  {
    hide RowAt;
    if i < k {
      FindMisses(key, i + 1, k);
    }
  }

  // bsearch over the table finds what linear lookup finds.
  method BSearch(key: string) returns (r: Option<nat>)
    ensures r == Find(key, 0)
  {
    hide StrCmp, RowAt;
    var lo, hi := 0, TAG_N;
    while lo < hi
      invariant 0 <= lo <= hi <= TAG_N
      invariant forall i :: 0 <= i < lo ==> StrCmp(RowAt(i).name, key) < 0
      invariant forall i :: hi <= i < TAG_N ==> StrCmp(RowAt(i).name, key) > 0
    {
      var mid := (lo + hi) / 2;
      var c := StrCmp(key, RowAt(mid).name);
      StrCmpOrder(key, RowAt(mid).name);
      if c == 0 {
        FindMisses(key, 0, mid);
        OneRowPerName(mid, Find(key, 0).value);
        return Some(mid);
      }
      forall i | 0 <= i < TAG_N && i != mid
        ensures i < mid ==> StrCmp(RowAt(i).name, RowAt(mid).name) < 0
        ensures i > mid ==> StrCmp(RowAt(mid).name, RowAt(i).name) < 0
      {
        if i < mid {
          TableSorted(i, mid);
        } else {
          TableSorted(mid, i);
        }
      }
      if c < 0 {
        forall i | mid <= i < TAG_N ensures StrCmp(RowAt(i).name, key) > 0 {
          if mid < i {
            StrCmpTransitive(key, RowAt(mid).name, RowAt(i).name);
          }
          StrCmpOrder(key, RowAt(i).name);
        }
        hi := mid;
      } else {
        forall i | 0 <= i <= mid ensures StrCmp(RowAt(i).name, key) < 0 {
          if i < mid {
            StrCmpTransitive(RowAt(i).name, RowAt(mid).name, key);
          }
        }
        lo := mid + 1;
      }
    }
    if Find(key, 0).Some? {
      StrCmpOrder(key, key);
      assert false;
    }
    return None;
  }

  lemma OneRowPerName(i: nat, j: nat)
    requires i < TAG_N && j < TAG_N && RowAt(i).name == RowAt(j).name
    ensures i == j
  {
    hide StrCmp, RowAt;
    StrCmpOrder(RowAt(i).name, RowAt(j).name);
    if i < j {
      TableSorted(i, j);
    } else if j < i {
      TableSorted(j, i);
    }
  }

  // The box of a tag, by linear lookup of its normal form.
  function DefaultForTagSpec(tag: Option<string>): Box {
    match Normalized(tag, BX_TAG_MAX)
    case None => Neutral()
    case Some(key) =>
      match Find(key, 0)
      case None => Neutral()
      case Some(i) => RowAt(i).box
  }

  // Asking for a row by its name gives its box.
  lemma NamedBox(i: nat, name: string)
    requires i < TAG_N && RowAt(i).name == name && 0 < |name| < BX_TAG_MAX
    requires forall k :: 0 <= k < |name| ==> 'a' <= name[k] <= 'z' || '0' <= name[k] <= '9'
    ensures DefaultForTagSpec(Some(name)) == RowAt(i).box
  {
    hide RowAt, Normalized, Find;
    PlainIsNormal(name);
    FindMisses(name, 0, i);
    OneRowPerName(i, Find(name, 0).value);
  }

  // Headings have a margin above and below, in em, by their level.
  lemma HeadingMargins()
    ensures forall level: nat :: 1 <= level <= 6 ==>
      DefaultForTagSpec(Some(['h', "0123456"[level]])).margin == Edges(HeadingEm(level), 0.0, HeadingEm(level), 0.0)
  {
    hide DefaultForTagSpec, HeadingEm;
    forall level: nat | 1 <= level <= 6
      ensures DefaultForTagSpec(Some(['h', "0123456"[level]])).margin == Edges(HeadingEm(level), 0.0, HeadingEm(level), 0.0)
    {
      HeadingRow(level);
      NamedBox(23 + level, ['h', "0123456"[level]]);
    }
  }

  function HeadingEm(level: nat): real {
    match level
    case 1 => 0.67
    case 2 => 0.83
    case 3 => 1.0
    case 4 => 1.33
    case 5 => 1.67
    case _ => 2.33
  }

  lemma HeadingRow(level: nat)
    requires 1 <= level <= 6
    ensures RowAt(23 + level).name == ['h', "0123456"[level]]
    ensures RowAt(23 + level).box.margin == Edges(HeadingEm(level), 0.0, HeadingEm(level), 0.0)
  {
  }

  // Paragraphs, preformatted text and definition lists have one em above and below, rules half of it.
  lemma TextMargins()
    ensures DefaultForTagSpec(Some("p")).margin == Edges(1.0, 0.0, 1.0, 0.0)
    ensures DefaultForTagSpec(Some("pre")).margin == Edges(1.0, 0.0, 1.0, 0.0)
    ensures DefaultForTagSpec(Some("dl")).margin == Edges(1.0, 0.0, 1.0, 0.0)
    ensures DefaultForTagSpec(Some("hr")).margin == Edges(0.5, 0.0, 0.5, 0.0)
  {
    hide DefaultForTagSpec;
    NamedBox(45, "p");
    NamedBox(46, "pre");
    NamedBox(16, "dl");
    NamedBox(32, "hr");
  }

  // So have lists, which are padded on their left.
  lemma ListMargins()
    ensures DefaultForTagSpec(Some("ol")).margin == Edges(1.0, 0.0, 1.0, 0.0) && DefaultForTagSpec(Some("ol")).padding == Edges(0.0, 0.0, 0.0, 2.5)
    ensures DefaultForTagSpec(Some("ul")).margin == Edges(1.0, 0.0, 1.0, 0.0) && DefaultForTagSpec(Some("ul")).padding == Edges(0.0, 0.0, 0.0, 2.5)
    ensures DefaultForTagSpec(Some("menu")).margin == Edges(1.0, 0.0, 1.0, 0.0) && DefaultForTagSpec(Some("menu")).padding == Edges(0.0, 0.0, 0.0, 2.5)
  {
    hide DefaultForTagSpec;
    NamedBox(44, "ol");
    NamedBox(66, "ul");
    NamedBox(41, "menu");
  }

  // Quotations and figures are indented on both sides, definitions on their left.
  lemma IndentedMargins()
    ensures DefaultForTagSpec(Some("blockquote")).margin == Edges(1.0, 2.5, 1.0, 2.5)
    ensures DefaultForTagSpec(Some("figure")).margin == Edges(1.0, 2.5, 1.0, 2.5)
    ensures DefaultForTagSpec(Some("dd")).margin == Edges(0.0, 0.0, 0.0, 2.5)
  {
    hide DefaultForTagSpec;
    NamedBox(6, "blockquote");
    NamedBox(21, "figure");
    NamedBox(13, "dd");
  }

  // No other row has a margin, and none but the three lists has padding.
  lemma OtherRowsHaveNone(i: nat)
    requires i < TAG_N
    ensures RowAt(i).box.margin != ZERO <==> i in {6, 13, 16, 21, 24, 25, 26, 27, 28, 29, 32, 41, 44, 45, 46, 66}
    ensures RowAt(i).box.padding != ZERO <==> i in {41, 44, 66}
  {
  }

  // bx_default_for_tag
  method DefaultForTag(tag: Option<string>) returns (box: Box)
    ensures box == DefaultForTagSpec(tag)
  {
    hide RowAt, Normalized;
    var buf := new char[BX_TAG_MAX](_ => ' ');
    var ok, len := CopyLowerTrim(tag, buf);
    if !ok {
      return Neutral();
    }
    var r := BSearch(buf[..len]);
    return if r.Some? then RowAt(r.value).box else Neutral();
  }

  /* ---------- the compact code ---------- */

  const UA_NONE: nat := 0
  const UA_COUNT: nat := 17

  // UA_NAME
  function UaName(id: nat): string
    requires UA_NONE < id < UA_COUNT
  {
    match id
    case 1 => "p"
    case 2 => "h1"
    case 3 => "h2"
    case 4 => "h3"
    case 5 => "h4"
    case 6 => "h5"
    case 7 => "h6"
    case 8 => "ul"
    case 9 => "ol"
    case 10 => "menu"
    case 11 => "dl"
    case 12 => "pre"
    case 13 => "blockquote"
    case 14 => "figure"
    case 15 => "hr"
    case _ => "li"
  }

  function UaFind(key: string, id: nat): (r: nat)
    requires UA_NONE < id <= UA_COUNT
    ensures r < UA_COUNT && (r != UA_NONE ==> UaName(r) == key)
    decreases UA_COUNT - id
  {
    if id == UA_COUNT then UA_NONE else if UaName(id) == key then id else UaFind(key, id + 1)
  }

  function UaOfTagSpec(tag: Option<string>): (r: nat)
    ensures r < UA_COUNT
  {
    match Normalized(tag, BX_TAG_MAX)
    case None => UA_NONE
    case Some(key) => UaFind(key, UA_NONE + 1)
  }

  // bx_ua_of_tag
  method UaOfTag(tag: Option<string>) returns (id: nat)
    ensures id == UaOfTagSpec(tag)
  {
    hide Normalized, UaName, StrCmp;
    var buf := new char[BX_TAG_MAX](_ => ' ');
    var ok, len := CopyLowerTrim(tag, buf);
    if !ok {
      return UA_NONE;
    }
    var key := buf[..len];
    for i := UA_NONE + 1 to UA_COUNT
      invariant UaFind(key, i) == UaFind(key, UA_NONE + 1)
    {
      StrCmpOrder(key, UaName(i));
      if StrCmp(key, UaName(i)) == 0 {
        return i;
      }
    }
    return UA_NONE;
  }

  // bx_default_for_ua; a code out of range gives the neutral box.
  function DefaultForUa(id: nat): Box {
    if id == UA_NONE || id >= UA_COUNT then Neutral() else DefaultForTagSpec(Some(UaName(id)))
  }

  lemma UaNameIsNormal(id: nat)
    requires UA_NONE < id < UA_COUNT
    ensures Normalized(Some(UaName(id)), BX_TAG_MAX) == Some(UaName(id))
  {
    hide Normalized;
    PlainIsNormal(UaName(id));
  }

  lemma {:induction false} UaFindFinds(key: string, id: nat, k: nat)
    requires UA_NONE < id <= k < UA_COUNT && UaName(k) == key
    ensures UaFind(key, id) != UA_NONE
    decreases k - id
  {
    hide UaName;
    if id < k {
      UaFindFinds(key, id + 1, k);
    }
  }

  predicate NoVerticalMargin(box: Box) {
    box.margin.top == 0.0 && box.margin.bottom == 0.0
  }

  // The code of a row that has a vertical margin.
  function CodeOfRow(i: nat): nat {
    match i
    case 45 => 1
    case 24 => 2
    case 25 => 3
    case 26 => 4
    case 27 => 5
    case 28 => 6
    case 29 => 7
    case 66 => 8
    case 44 => 9
    case 41 => 10
    case 16 => 11
    case 46 => 12
    case 6 => 13
    case 21 => 14
    case 32 => 15
    case 38 => 16
    case _ => UA_NONE
  }

  // Every row with a vertical margin has a code.
  lemma RowsWithMarginHaveCodes(i: nat)
    requires i < TAG_N
    ensures NoVerticalMargin(RowAt(i).box) || UA_NONE < CodeOfRow(i) < UA_COUNT
    ensures CodeOfRow(i) != UA_NONE ==> UA_NONE < CodeOfRow(i) < UA_COUNT && UaName(CodeOfRow(i)) == RowAt(i).name
  {
  }

  // A code stands for the whole box of its tag; a tag without one has no vertical margin to lose.
  lemma CodeKeepsBox(tag: Option<string>)
    ensures UaOfTagSpec(tag) != UA_NONE ==> DefaultForUa(UaOfTagSpec(tag)) == DefaultForTagSpec(tag)
    ensures UaOfTagSpec(tag) == UA_NONE ==> NoVerticalMargin(DefaultForTagSpec(tag))
  {
    hide RowAt, UaName, Normalized, CodeOfRow;
    var id := UaOfTagSpec(tag);
    if id != UA_NONE {
      UaNameIsNormal(id);
    } else if Normalized(tag, BX_TAG_MAX).Some? {
      var key := Normalized(tag, BX_TAG_MAX).value;
      if Find(key, 0).Some? {
        var i := Find(key, 0).value;
        RowsWithMarginHaveCodes(i);
        if CodeOfRow(i) != UA_NONE {
          UaFindFinds(key, UA_NONE + 1, CodeOfRow(i));
        }
      }
    }
  }

  // For every string, the vertical margins that survive the IPC are the tag's own.
  lemma CodeLosesNoVerticalMargin(tag: Option<string>)
    ensures DefaultForUa(UaOfTagSpec(tag)).margin.top == DefaultForTagSpec(tag).margin.top
    ensures DefaultForUa(UaOfTagSpec(tag)).margin.bottom == DefaultForTagSpec(tag).margin.bottom
  {
    hide UaOfTagSpec, DefaultForTagSpec;
    CodeKeepsBox(tag);
  }

  // The row of dd, the only one with a margin and no code.
  const DD_ROW := 13

  lemma RowsWithoutCode(i: nat)
    requires i < TAG_N && CodeOfRow(i) == UA_NONE
    ensures RowAt(i).box.margin == ZERO <==> i != DD_ROW
  {
  }

  lemma DdRow()
    ensures RowAt(DD_ROW).name == "dd" && CodeOfRow(DD_ROW) == UA_NONE && RowAt(DD_ROW).box.margin.left == 2.5
  {
  }

  // For every string, the whole margin survives exactly when the tag is not dd.
  lemma CodeKeepsMarginIff(tag: Option<string>)
    ensures DefaultForUa(UaOfTagSpec(tag)).margin == DefaultForTagSpec(tag).margin <==> Normalized(tag, BX_TAG_MAX) != Some("dd")
  {
    hide RowAt, UaName, Normalized, CodeOfRow, Find, UaFind;
    DdRow();
    NoCodeForDd();
    CodeKeepsBox(tag);
    var id, norm := UaOfTagSpec(tag), Normalized(tag, BX_TAG_MAX);
    if norm.Some? {
      var key := norm.value;
      if id == UA_NONE && Find(key, 0).Some? {
        var i := Find(key, 0).value;
        RowsWithMarginHaveCodes(i);
        if CodeOfRow(i) != UA_NONE {
          UaFindFinds(key, UA_NONE + 1, CodeOfRow(i));
        }
        RowsWithoutCode(i);
      }
      if key == "dd" {
        FindMisses(key, 0, DD_ROW);
        OneRowPerName(DD_ROW, Find(key, 0).value);
      } else if id == UA_NONE && Find(key, 0).Some? {
        assert Find(key, 0).value != DD_ROW;
      }
    }
  }

  // A definition's left margin is what is lost.
  lemma CodeLosesLeftMarginOfDd()
    ensures DefaultForTagSpec(Some("dd")).margin.left == 2.5
    ensures DefaultForUa(UaOfTagSpec(Some("dd"))).margin.left == 0.0
  {
    hide RowAt, Normalized, Find, UaFind;
    PlainIsNormal("dd");
    DdRow();
    NoCodeForDd();
    FindMisses("dd", 0, DD_ROW);
    OneRowPerName(DD_ROW, Find("dd", 0).value);
  }

  lemma NoCodeForDd()
    ensures UaFind("dd", 1) == UA_NONE
  {
  }
}
