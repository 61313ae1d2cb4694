/** What the HTTP cache stores, and for how long it is fresh (src/http_cache.c; section 4.2 of RFC 9111):
  * Cache-Control directives, hc_storable, hc_lifetime and hc_classify. Parsing a date is a parameter.
  */
module Freshness {
  import opened Wrappers

  const HC_VAL_MAX := 256
  const HC_MAX_ENTRY := 8 * 1024 * 1024
  const HC_MAX_AGE_CAP := 31536000
  const HC_HEURISTIC_CAP := 24 * 3600

  // A header field as responses and entries hold it: a C string in 256 characters, "" when absent.
  type Header = s: string | |s| < HC_VAL_MAX

  datatype Meta = Meta(
    finalUrl: string,
    contentType: string,
    etag: Header,
    lastModified: Header,
    cacheControl: Header,
    expires: Header,
    date: Header,
    stored: int
  )

  // hc_parse_http_date: seconds since 1970, or -1.
  type Dates = string -> int

  /* ---------- Cache-Control directives ---------- */

  predicate IsSeparator(c: char) {
    c == ',' || c == ' ' || c == '\t'
  }

  predicate EndsToken(c: char) {
    IsSeparator(c) || c == '='
  }

  function Lower(c: char): char {
    if 'A' <= c <= 'Z' then (c as int + 32) as char else c
  }

  predicate SameToken(a: string, b: string) {
    |a| == |b| && forall i :: 0 <= i < |a| ==> Lower(a[i]) == Lower(b[i])
  }

  // Names are the same up to the case of letters.
  lemma SameTokenIff(a: string, b: string)
    ensures SameToken(a, b) <==> |a| == |b| && forall i :: 0 <= i < |a| ==> SameLetter(a[i], b[i])
  {
    assert forall i :: 0 <= i < |a| && i < |b| ==> (Lower(a[i]) == Lower(b[i]) <==> SameLetter(a[i], b[i]));
  }

  predicate SameLetter(c: char, d: char) {
    || c == d
    || ('A' <= c <= 'Z' && d as int - c as int == 'a' as int - 'A' as int)
    || ('A' <= d <= 'Z' && c as int - d as int == 'a' as int - 'A' as int)
  }

  function SkipSeparators(s: string): (t: string)
    ensures |t| <= |s| && (t != "" ==> !IsSeparator(t[0]))
  {
    if s != "" && IsSeparator(s[0]) then SkipSeparators(s[1..]) else s
  }

  function TokenLength(s: string): (n: nat)
    ensures n <= |s| && (n < |s| ==> EndsToken(s[n]))
  {
    if s == "" || EndsToken(s[0]) then 0 else 1 + TokenLength(s[1..])
  }

  function FromComma(s: string): (t: string)
    ensures |t| <= |s| && (s != "" && s[0] != ',' ==> |t| < |s|) && (t != "" ==> t[0] == ',')
  {
    if s == "" || s[0] == ',' then s else FromComma(s[1..])
  }

  // What follows the first directive of that name, from the end of its name on.
  function Directive(cc: string, name: string): Option<string>
    decreases |cc|
  {
    var p := SkipSeparators(cc);
    if p == "" then (if name == "" then Some("") else None)
    else if SameToken(p[..TokenLength(p)], name) then Some(p[TokenLength(p)..])
    else Directive(FromComma(p[TokenLength(p)..]), name)
  }

  predicate HasDirective(cc: string, name: string) {
    Directive(cc, name).Some?
  }

  function ValueOf(rest: string): Option<string> {
    if rest != "" && rest[0] == '=' then Some(rest[1..]) else None
  }

  // cc_find, by position in the list.
  method CcFind(cc: string, name: string) returns (found: bool, val: Option<string>)
    requires name != ""
    ensures found <==> HasDirective(cc, name)
    ensures found ==> val == ValueOf(Directive(cc, name).value)
  {
    hide SkipSeparators, TokenLength, FromComma, SameToken;
    var p := 0;
    while p < |cc|
      invariant 0 <= p <= |cc|
      invariant Directive(cc[p..], name) == Directive(cc, name)
    {
      ghost var was := p;
      p := SkipBlanks(cc, p);
      var e := TokenEnd(cc, p);
      assert cc[p..][..e - p] == cc[p..e] && cc[p..][e - p..] == cc[e..];
      if p < |cc| && SameToken(cc[p..e], name) {
        return true, if e < |cc| && cc[e] == '=' then Some(cc[e + 1..]) else None;
      }
      p := SkipToComma(cc, e);
    }
    return false, None;
  }

  method SkipBlanks(cc: string, p: nat) returns (q: nat)
    requires p <= |cc|
    ensures p <= q <= |cc| && cc[q..] == SkipSeparators(cc[p..])
  {
    q := p;
    while q < |cc| && IsSeparator(cc[q])
      invariant p <= q <= |cc|
      invariant SkipSeparators(cc[q..]) == SkipSeparators(cc[p..])
    {
      q := q + 1;
    }
  }

  method TokenEnd(cc: string, p: nat) returns (e: nat)
    requires p <= |cc|
    ensures p <= e <= |cc| && e == p + TokenLength(cc[p..])
  {
    e := p;
    while e < |cc| && !EndsToken(cc[e])
      invariant p <= e <= |cc|
      invariant TokenLength(cc[p..]) == e - p + TokenLength(cc[e..])
    {
      e := e + 1;
    }
  }

  method SkipToComma(cc: string, e: nat) returns (q: nat)
    requires e <= |cc|
    ensures e <= q <= |cc| && cc[q..] == FromComma(cc[e..]) && (e < |cc| && cc[e] != ',' ==> e < q)
  {
    q := e;
    while q < |cc| && cc[q] != ','
      invariant e <= q <= |cc| && (q == e || e < |cc|)
      invariant FromComma(cc[q..]) == FromComma(cc[e..])
    {
      q := q + 1;
    }
  }

  /* ---------- what a directive is ---------- */

  // The elements of a comma-separated list.
  function Elements(s: string): (es: seq<string>)
    ensures es != []
    decreases |s|
  {
    if s == "" then [""]
    else if s[0] == ',' then [""] + Elements(s[1..])
    else
      var es := Elements(s[1..]);
      [[s[0]] + es[0]] + es[1..]
  }

  // An element's name: what precedes "=" or a blank, leading blanks aside.
  function NameOf(element: string): string {
    var p := SkipSeparators(element);
    p[..TokenLength(p)]
  }

  // Commas separate the elements of a list.
  lemma {:induction false} ElementsOfList(a: string, b: string)
    ensures Elements(a + [','] + b) == Elements(a) + Elements(b)
    decreases |a|
  {
    hide Elements;
    if a == "" {
      assert a + [','] + b == [','] + b;
      ElementsCons(',', b);
      NoElements();
    } else {
      var c, rest := a[0], a[1..];
      ElementsOfList(rest, b);
      assert a == [c] + rest && a + [','] + b == [c] + (rest + [','] + b);
      ElementsCons(c, rest);
      ElementsCons(c, rest + [','] + b);
      ConsOfConcat(c, Elements(rest), Elements(b));
    }
  }

  lemma NoElements()
    ensures Elements("") == [""]
  {
  }

  // A character is an element's end, or goes to the front of the first element.
  function Prepended(c: char, es: seq<string>): seq<string>
    requires es != []
  {
    if c == ',' then [""] + es else [[c] + es[0]] + es[1..]
  }

  lemma ElementsCons(c: char, t: string)
    ensures Elements([c] + t) == Prepended(c, Elements(t))
  {
    assert ([c] + t)[1..] == t;
  }

  lemma ConsOfConcat(c: char, es: seq<string>, more: seq<string>)
    requires es != []
    ensures Prepended(c, es + more) == Prepended(c, es) + more
  {
    assert (es + more)[0] == es[0] && (es + more)[1..] == es[1..] + more;
  }

  lemma {:induction false} OneElement(a: string)
    requires ',' !in a
    ensures Elements(a) == [a]
    decreases |a|
  {
    if a != "" {
      OneElement(a[1..]);
      assert a == [a[0]] + a[1..];
    }
  }

  predicate IsBlank(s: string) {
    forall i :: 0 <= i < |s| ==> s[i] == ' ' || s[i] == '\t'
  }

  // In an element, a name goes from its first character that is no blank to the next blank or "=".
  lemma {:induction false} NameOfElement(blank: string, name: string, rest: string)
    requires IsBlank(blank) && forall i :: 0 <= i < |name| ==> name[i] != ',' && name[i] != ' ' && name[i] != '\t' && name[i] != '='
    requires name != "" && (rest == "" || rest[0] == '=' || rest[0] == ' ' || rest[0] == '\t')
    ensures NameOf(blank + name + rest) == name && AfterName(blank + name + rest) == rest
    decreases |blank|
  {
    var s := blank + name + rest;
    if blank == "" {
      assert s == name + rest && s[0] == name[0];
      TokenThenEnd(name, rest);
    } else {
      assert s[1..] == blank[1..] + name + rest && s[0] == blank[0];
      NameOfElement(blank[1..], name, rest);
    }
  }

  lemma {:induction false} TokenThenEnd(name: string, rest: string)
    requires (forall i :: 0 <= i < |name| ==> !EndsToken(name[i])) && (rest == "" || EndsToken(rest[0]))
    ensures TokenLength(name + rest) == |name|
    decreases |name|
  {
    var s := name + rest;
    if name == "" {
      assert s == rest;
    } else {
      assert s[1..] == name[1..] + rest;
      TokenThenEnd(name[1..], rest);
    }
  }

  ghost predicate Named(elements: seq<string>, name: string) {
    exists k :: 0 <= k < |elements| && SameToken(NameOf(elements[k]), name)
  }

  ghost predicate Lists(cc: string, name: string) {
    Named(Elements(cc), name)
  }

  lemma NamedCons(first: string, rest: seq<string>, name: string)
    ensures Named([first] + rest, name) <==> SameToken(NameOf(first), name) || Named(rest, name)
  {
    var es := [first] + rest;
    if SameToken(NameOf(first), name) {
      assert es[0] == first;
    } else if Named(rest, name) {
      var k :| 0 <= k < |rest| && SameToken(NameOf(rest[k]), name);
      assert es[k + 1] == rest[k];
    }
  }

  // A directive is found exactly when some element of the list has its name, in whatever case.
  lemma {:induction false} DirectiveIff(cc: string, name: string)
    requires name != ""
    ensures HasDirective(cc, name) <==> Lists(cc, name)
    decreases |cc|, 1
  {
    hide Named, TokenLength, FromComma;
    if cc == "" {
      NamedCons("", [], name);
      assert Elements(cc) == [""] + [];
      NoneNamed(name);
    } else if cc[0] == ',' {
      DirectiveIff(cc[1..], name);
      NamedCons("", Elements(cc[1..]), name);
      NoneNamed(name);
    } else if IsSeparator(cc[0]) {
      var es, rest := Elements(cc), Elements(cc[1..]);
      DirectiveIff(cc[1..], name);
      NamedCons(rest[0], rest[1..], name);
      NamedCons(es[0], rest[1..], name);
      assert rest == [rest[0]] + rest[1..];
      assert es[0][1..] == rest[0];
    } else {
      DirectiveAfterToken(cc, name);
    }
  }

  lemma NoneNamed(name: string)
    requires name != ""
    ensures !Named([], name) && !SameToken(NameOf(""), name)
  {
  }

  lemma {:induction false} DirectiveAfterToken(cc: string, name: string)
    requires name != "" && cc != "" && !IsSeparator(cc[0])
    ensures HasDirective(cc, name) <==> Lists(cc, name)
    decreases |cc|, 0
  {
    hide Named, TokenLength, FromComma, Elements, NameOf;
    var token, tail := TokenLength(cc), FromComma(cc);
    FirstElement(cc);
    TokenOfElement(cc);
    AfterToken(cc, token);
    var rest := if tail == "" then [] else Elements(tail[1..]);
    NamedCons(cc[..|cc| - |tail|], rest, name);
    NoneNamed(name);
    assert Directive(cc, name) == if SameToken(cc[..token], name) then Some(cc[token..]) else Directive(tail, name);
    if tail != "" {
      DirectiveIff(tail[1..], name);
      assert SkipSeparators(tail) == SkipSeparators(tail[1..]);
      assert Directive(tail, name) == Directive(tail[1..], name);
    } else {
      assert Directive(tail, name).None?;
    }
  }

  // The list is its first element, which ends at the first comma, and the list after that.
  lemma {:induction false} FirstElement(s: string)
    ensures var tail := FromComma(s);
            Elements(s) == [s[..|s| - |tail|]] + (if tail == "" then [] else Elements(tail[1..]))
    decreases |s|
  {
    if s != "" && s[0] != ',' {
      FirstElement(s[1..]);
      var tail := FromComma(s);
      assert s[..|s| - |tail|] == [s[0]] + s[1..][..|s| - 1 - |tail|];
    }
  }

  lemma {:induction false} TokenOfElement(s: string)
    requires s != "" && !IsSeparator(s[0])
    ensures NameOf(s[..|s| - |FromComma(s)|]) == s[..TokenLength(s)]
  {
    TokenOfPrefix(s);
    var first := s[..|s| - |FromComma(s)|];
    assert first[0] == s[0];
    assert first[..TokenLength(s)] == s[..TokenLength(s)];
  }

  lemma {:induction false} TokenOfPrefix(s: string)
    ensures TokenLength(s) <= |s| - |FromComma(s)|
    ensures TokenLength(s[..|s| - |FromComma(s)|]) == TokenLength(s)
    decreases |s|
  {
    if s != "" && s[0] != ',' {
      TokenOfPrefix(s[1..]);
      assert s[..|s| - |FromComma(s)|] == [s[0]] + s[1..][..|s| - 1 - |FromComma(s)|];
    }
  }

  lemma {:induction false} AfterToken(s: string, n: nat)
    requires n <= TokenLength(s)
    ensures FromComma(s[n..]) == FromComma(s)
    decreases n
  {
    if n > 0 {
      AfterToken(s[1..], n - 1);
      assert s[1..][n - 1..] == s[n..];
    }
  }

  // What follows an element's name.
  function AfterName(element: string): string {
    var p := SkipSeparators(element);
    p[TokenLength(p)..]
  }

  // The k-th element is the first with this name.
  ghost predicate First(elements: seq<string>, name: string, k: nat) {
    k < |elements| && SameToken(NameOf(elements[k]), name) && forall j :: 0 <= j < k ==> !SameToken(NameOf(elements[j]), name)
  }

  // What a directive is found with is the rest of that element, up to its comma, and the rest of the list.
  lemma {:induction false} DirectiveRest(cc: string, name: string, k: nat) returns (tail: string)
    requires name != "" && First(Elements(cc), name, k)
    ensures tail == "" || tail[0] == ','
    ensures Directive(cc, name) == Some(AfterName(Elements(cc)[k]) + tail)
    decreases |cc|, 1
  {
    hide TokenLength, FromComma, Directive, SameToken;
    NoneNamed(name);
    var es := Elements(cc);
    if cc == "" {
      assert false;
    } else if cc[0] == ',' {
      var rest := Elements(cc[1..]);
      assert forall j :: 0 <= j < |rest| ==> rest[j] == es[j + 1];
      tail := DirectiveRest(cc[1..], name, k - 1);
      SkippedSeparator(cc, name);
    } else if IsSeparator(cc[0]) {
      var rest := Elements(cc[1..]);
      assert es[0][1..] == rest[0];
      assert forall j :: 1 <= j < |rest| ==> rest[j] == es[j];
      assert NameOf(es[0]) == NameOf(rest[0]) && AfterName(es[0]) == AfterName(rest[0]);
      tail := DirectiveRest(cc[1..], name, k);
      SkippedSeparator(cc, name);
    } else {
      tail := DirectiveRestAfterToken(cc, name, k);
    }
  }

  lemma SkippedSeparator(cc: string, name: string)
    requires cc != "" && IsSeparator(cc[0])
    ensures Directive(cc, name) == Directive(cc[1..], name)
  {
    assert SkipSeparators(cc) == SkipSeparators(cc[1..]);
  }

  lemma {:induction false} DirectiveRestAfterToken(cc: string, name: string, k: nat) returns (rest: string)
    requires name != "" && cc != "" && !IsSeparator(cc[0]) && First(Elements(cc), name, k)
    ensures rest == "" || rest[0] == ','
    ensures Directive(cc, name) == Some(AfterName(Elements(cc)[k]) + rest)
    decreases |cc|, 0
  {
    hide TokenLength, FromComma, Elements, SameToken;
    var token, tail := TokenLength(cc), FromComma(cc);
    var es, first := Elements(cc), cc[..|cc| - |tail|];
    FirstElement(cc);
    TokenOfElement(cc);
    TokenOfPrefix(cc);
    AfterToken(cc, token);
    FromCommaIsSuffix(cc);
    assert es[0] == first;
    assert NameOf(first) == cc[..token];
    assert Directive(cc, name) == if SameToken(cc[..token], name) then Some(cc[token..]) else Directive(tail, name);
    if k == 0 {
      rest := tail;
      assert first[0] == cc[0];
      assert SkipSeparators(first) == first;
      assert AfterName(first) == first[token..];
      assert cc[token..] == first[token..] + tail;
    } else {
      assert tail != "";
      var others := Elements(tail[1..]);
      assert forall j :: 0 <= j < |others| ==> others[j] == es[j + 1];
      rest := DirectiveRest(tail[1..], name, k - 1);
      SkippedSeparator(tail, name);
    }
  }

  lemma {:induction false} FromCommaIsSuffix(s: string)
    ensures s == s[..|s| - |FromComma(s)|] + FromComma(s)
    decreases |s|
  {
    if s != "" && s[0] != ',' {
      var rest, t := s[1..], FromComma(s[1..]);
      assert FromComma(s) == t;
      FromCommaIsSuffix(rest);
      hide FromComma;
      SuffixAfterOne(s, t);
    }
  }

  lemma SuffixAfterOne(s: string, t: string)
    requires s != "" && |t| < |s| && s[1..] == s[1..][..|s| - 1 - |t|] + t
    ensures s == s[..|s| - |t|] + t
  {
    assert s[|s| - |t|..] == s[1..][|s| - 1 - |t|..] == t;
  }

  /* ---------- storable, lifetime, class ---------- */

  predicate IsDigit(c: char) {
    '0' <= c <= '9'
  }

  function DigitOf(c: char): nat
    requires IsDigit(c)
  {
    c as int - '0' as int
  }

  // A decimal number, read on from n, clamped to a year.
  function Digits(s: string, n: nat): (r: nat)
    requires n <= HC_MAX_AGE_CAP
    ensures n <= r <= HC_MAX_AGE_CAP
  {
    if s == "" || !IsDigit(s[0]) then n
    else
      var more := n * 10 + DigitOf(s[0]);
      if more > HC_MAX_AGE_CAP then HC_MAX_AGE_CAP else Digits(s[1..], more)
  }

  // max-age=N; anything but digits is no max-age.
  function MaxAge(cc: string): (r: Option<nat>)
    ensures r.Some? ==> r.value <= HC_MAX_AGE_CAP
  {
    var d := Directive(cc, "max-age");
    if d.None? || ValueOf(d.value).None? then None
    else
      var v := ValueOf(d.value).value;
      var w := if v != "" && v[0] == '"' then v[1..] else v;
      if w == "" || !IsDigit(w[0]) then None else Some(Digits(w, 0))
  }

  // The value of a decimal number.
  function Decimal(d: string): nat
    requires forall i :: 0 <= i < |d| ==> IsDigit(d[i])
  {
    if d == "" then 0 else Decimal(d[..|d| - 1]) * 10 + DigitOf(d[|d| - 1])
  }

  lemma DigitsAreTen(c: char)
    ensures IsDigit(c) <==> c in "0123456789"
    ensures forall v: nat :: v < 10 ==> IsDigit("0123456789"[v]) && DigitOf("0123456789"[v]) == v
  {
    if IsDigit(c) {
      assert "0123456789"[c as int - '0' as int] == c;
    }
  }

  // The text after a name is "=", perhaps a quote, and the digits of n, as many as there are.
  ghost predicate IsNumber(rest: string, start: nat, end: nat, n: nat) {
    && 1 <= start < end <= |rest| && rest[0] == '='
    && (if rest[1] == '"' then start == 2 else start == 1)
    && (forall i :: start <= i < end ==> IsDigit(rest[i])) && (end < |rest| ==> !IsDigit(rest[end]))
    && Decimal(rest[start..end]) == n
  }

  // The first max-age of the list is the number n.
  ghost predicate SaysMaxAge(cc: string, n: nat) {
    exists k: nat, start: nat, end: nat :: First(Elements(cc), "max-age", k) && IsNumber(AfterName(Elements(cc)[k]), start, end, n)
  }

  ghost predicate SaysNoMaxAge(cc: string) {
    forall n: nat :: !SaysMaxAge(cc, n)
  }

  lemma DecimalStep(s: string, i: nat)
    requires i < |s| && forall j :: 0 <= j <= i ==> IsDigit(s[j])
    ensures Decimal(s[..i + 1]) == Decimal(s[..i]) * 10 + DigitOf(s[i]) >= Decimal(s[..i])
  {
    assert s[..i + 1][..i] == s[..i];
  }

  lemma {:induction false} DecimalGrows(s: string, i: nat, len: nat)
    requires i <= len <= |s| && forall j :: 0 <= j < len ==> IsDigit(s[j])
    ensures Decimal(s[..i]) <= Decimal(s[..len])
    decreases len
  {
    if i < len {
      DecimalGrows(s, i, len - 1);
      DecimalStep(s, len - 1);
    }
  }

  // Reading digits one by one computes the number, clamped to a year.
  lemma {:induction false} DigitsAreDecimal(s: string, i: nat, len: nat)
    requires i <= len <= |s| && (forall j :: 0 <= j < len ==> IsDigit(s[j])) && (len < |s| ==> !IsDigit(s[len]))
    requires Decimal(s[..i]) <= HC_MAX_AGE_CAP
    ensures Digits(s[i..], Decimal(s[..i])) == Least(Decimal(s[..len]), HC_MAX_AGE_CAP)
    decreases len - i
  {
    hide Decimal;
    if i < len {
      DecimalStep(s, i);
      DecimalGrows(s, i + 1, len);
      assert s[i..][0] == s[i] && s[i..][1..] == s[i + 1..];
      if Decimal(s[..i + 1]) <= HC_MAX_AGE_CAP {
        DigitsAreDecimal(s, i + 1, len);
      }
    }
  }

  // The text that max-age is read from, "=" and a quote aside.
  function NumberText(rest: string): string {
    var v := if rest != "" && rest[0] == '=' then rest[1..] else "";
    if v != "" && v[0] == '"' then v[1..] else v
  }

  lemma MaxAgeText(cc: string, rest: string)
    requires Directive(cc, "max-age") == Some(rest)
    ensures var w := NumberText(rest);
            MaxAge(cc) == if w == "" || !IsDigit(w[0]) then None else Some(Digits(w, 0))
  {
    hide Directive, Digits;
  }

  // max-age is read as the number it says, clamped to a year.
  lemma SaidMaxAgeIsRead(cc: string, n: nat)
    requires SaysMaxAge(cc, n)
    ensures MaxAge(cc) == Some(Least(n, HC_MAX_AGE_CAP))
  {
    hide Elements, Directive, Digits, Decimal, MaxAge, AfterName;
    var k: nat, start: nat, end: nat :| First(Elements(cc), "max-age", k) && IsNumber(AfterName(Elements(cc)[k]), start, end, n);
    var tail := DirectiveRest(cc, "max-age", k);
    var rest := AfterName(Elements(cc)[k]);
    MaxAgeText(cc, rest + tail);
    var w := (rest + tail)[start..];
    assert NumberText(rest + tail) == w;
    assert w[..end - start] == rest[start..end];
    NoDigits(w);
    DigitsAreDecimal(w, 0, end - start);
    assert w[0..] == w;
  }

  lemma NoDigits(s: string)
    ensures Decimal(s[..0]) == 0
  {
  }

  // And what is read as a max-age was said to be one.
  lemma ReadMaxAgeIsSaid(cc: string)
    requires MaxAge(cc).Some?
    ensures exists n: nat :: SaysMaxAge(cc, n)
  {
    hide Elements, Digits, Decimal, AfterName;
    DirectiveIff(cc, "max-age");
    var k := FirstNamed(Elements(cc), "max-age");
    var tail := DirectiveRest(cc, "max-age", k);
    var rest := AfterName(Elements(cc)[k]);
    var text := rest + tail;
    MaxAgeText(cc, text);
    hide MaxAge, Directive, First;
    assert rest != "" && rest[0] == '=';
    assert |rest| > 1;
    var start := if rest[1] == '"' then 2 else 1;
    assert NumberText(text) == text[start..];
    assert start < |rest| && IsDigit(rest[start]);
    var end := DigitsEnd(rest, start);
    assert IsNumber(rest, start, end, Decimal(rest[start..end]));
    assert SaysMaxAge(cc, Decimal(rest[start..end]));
  }

  lemma {:induction false} DigitsEnd(s: string, start: nat) returns (end: nat)
    requires start < |s| && IsDigit(s[start])
    ensures start < end <= |s| && (forall i :: start <= i < end ==> IsDigit(s[i])) && (end < |s| ==> !IsDigit(s[end]))
    decreases |s| - start
  {
    end := start + 1;
    if end < |s| && IsDigit(s[end]) {
      end := DigitsEnd(s, start + 1);
    }
  }

  lemma {:induction false} FirstNamed(elements: seq<string>, name: string) returns (k: nat)
    requires Named(elements, name)
    ensures First(elements, name, k)
    decreases |elements|
  {
    hide SameToken, NameOf;
    if SameToken(NameOf(elements[0]), name) {
      return 0;
    }
    assert elements == [elements[0]] + elements[1..];
    NamedCons(elements[0], elements[1..], name);
    k := FirstNamed(elements[1..], name);
    k := k + 1;
    assert forall j :: 1 <= j < |elements| ==> elements[j] == elements[1..][j - 1];
  }

  predicate Storable(code: int, m: Meta, bodyLen: nat) {
    if code != 200 || bodyLen > HC_MAX_ENTRY then false
    else if HasDirective(m.cacheControl, "no-store") then false
    else
      || m.etag != "" || m.lastModified != "" || m.expires != ""
      || (MaxAge(m.cacheControl).Some? && MaxAge(m.cacheControl).value > 0)
  }

  function Least(a: int, b: int): int {
    if a > b then b else a
  }

  // Seconds of freshness: no-cache, max-age, Expires and the heuristic, in this order.
  function Lifetime(dates: Dates, m: Meta): (life: int)
    ensures 0 <= life <= HC_MAX_AGE_CAP
  {
    if HasDirective(m.cacheControl, "no-cache") then 0
    else if MaxAge(m.cacheControl).Some? then MaxAge(m.cacheControl).value
    else
      var date := if dates(m.date) == -1 then m.stored else dates(m.date);
      if m.expires != "" then
        var exp := dates(m.expires);
        if exp == -1 || exp <= date then 0 else Least(exp - date, HC_MAX_AGE_CAP)
      else
        var lm := dates(m.lastModified);
        if lm != -1 && date > lm then Least((date - lm) / 10, HC_HEURISTIC_CAP) else 0
  }

  // A clock that went back makes no negative age.
  function Age(m: Meta, now: int): (age: nat) {
    if now < m.stored then 0 else now - m.stored
  }

  datatype Class = Fresh | Revalidate | Unusable

  function Classify(dates: Dates, m: Meta, now: int): Class {
    if Age(m, now) < Lifetime(dates, m) then Fresh
    else if m.etag != "" || m.lastModified != "" then Revalidate
    else Unusable
  }

  /* ---------- what follows ---------- */

  // What is stored is a 200 without no-store, no longer than 8 MiB.
  lemma StorableMeans(code: int, m: Meta, bodyLen: nat)
    requires Storable(code, m, bodyLen)
    ensures code == 200 && bodyLen <= HC_MAX_ENTRY && !Lists(m.cacheControl, "no-store")
  {
    hide Directive, MaxAge;
    DirectiveIff(m.cacheControl, "no-store");
  }

  // no-cache outranks every other sign of freshness: always ask again.
  lemma NoCacheIsNeverFresh(dates: Dates, m: Meta, now: int)
    requires Lists(m.cacheControl, "no-cache")
    ensures Classify(dates, m, now) != Fresh
  {
    DirectiveIff(m.cacheControl, "no-cache");
    hide Directive, MaxAge;
  }

  // Fresh at one instant is fresh at every earlier one, and nothing is fresh for longer than a year, or for
  // longer than a day on the strength of its Last-Modified date alone.
  lemma FreshnessExpires(dates: Dates, m: Meta, now: int, earlier: int)
    requires Classify(dates, m, now) == Fresh && earlier <= now
    ensures Classify(dates, m, earlier) == Fresh
    ensures now - m.stored < HC_MAX_AGE_CAP
    ensures m.expires == "" && MaxAge(m.cacheControl).None? ==> now - m.stored < HC_HEURISTIC_CAP
  {
    hide Directive, MaxAge;
  }

  // Seconds since the response was stored; none while the clock is behind.
  function Elapsed(stored: int, now: int): nat {
    if now <= stored then 0 else now - stored
  }

  // The origin's own date, if it can be read.
  function DateOf(dates: Dates, m: Meta): int {
    if dates(m.date) != -1 then dates(m.date) else m.stored
  }

  // Without no-cache, max-age=N decides alone: fresh for N seconds and no longer, a year at most, whatever
  // Expires and Last-Modified say.
  lemma MaxAgeDecides(dates: Dates, m: Meta, now: int, n: nat)
    requires !Lists(m.cacheControl, "no-cache") && SaysMaxAge(m.cacheControl, n)
    ensures Classify(dates, m, now) == Fresh <==> Elapsed(m.stored, now) < n && Elapsed(m.stored, now) < 31536000
  {
    DirectiveIff(m.cacheControl, "no-cache");
    SaidMaxAgeIsRead(m.cacheControl, n);
    hide Directive, MaxAge, Lists, SaysMaxAge;
  }

  // Without a max-age, Expires decides alone: fresh for the time between the response's date and Expires, and
  // not at all if Expires cannot be read.
  lemma ExpiresDecides(dates: Dates, m: Meta, now: int)
    requires !Lists(m.cacheControl, "no-cache") && SaysNoMaxAge(m.cacheControl) && m.expires != ""
    ensures Classify(dates, m, now) == Fresh <==>
            dates(m.expires) != -1 && Elapsed(m.stored, now) < dates(m.expires) - DateOf(dates, m) && Elapsed(m.stored, now) < 31536000
  {
    DirectiveIff(m.cacheControl, "no-cache");
    NoMaxAgeIsRead(m.cacheControl);
    hide Directive, MaxAge, Lists, SaysNoMaxAge;
  }

  // With neither, a tenth of the time since the last modification, a day at most.
  lemma LastModifiedDecides(dates: Dates, m: Meta, now: int)
    requires !Lists(m.cacheControl, "no-cache") && SaysNoMaxAge(m.cacheControl) && m.expires == ""
    ensures Classify(dates, m, now) == Fresh <==>
            dates(m.lastModified) != -1 && 10 * (Elapsed(m.stored, now) + 1) <= DateOf(dates, m) - dates(m.lastModified) &&
            Elapsed(m.stored, now) < 86400
  {
    DirectiveIff(m.cacheControl, "no-cache");
    NoMaxAgeIsRead(m.cacheControl);
    hide Directive, MaxAge, Lists, SaysNoMaxAge;
  }

  lemma NoMaxAgeIsRead(cc: string)
    requires SaysNoMaxAge(cc)
    ensures MaxAge(cc).None?
  {
    hide MaxAge, SaysMaxAge;
    if MaxAge(cc).Some? {
      ReadMaxAgeIsSaid(cc);
    }
  }

  // What is not fresh is revalidated if it has a validator, and of no use otherwise.
  lemma StaleClass(dates: Dates, m: Meta, now: int)
    requires Classify(dates, m, now) != Fresh
    ensures Classify(dates, m, now) == Revalidate <==> m.etag != "" || m.lastModified != ""
  {
    hide Lifetime;
  }

  // hc_storable, in full: a 200 of 8 MiB at most, without no-store, that has a validator, an Expires, or a
  // max-age other than 0.
  lemma StorableIff(code: int, m: Meta, bodyLen: nat)
    ensures Storable(code, m, bodyLen) <==>
            && code == 200 && bodyLen <= 8388608 && !Lists(m.cacheControl, "no-store")
            && (m.etag != "" || m.lastModified != "" || m.expires != "" || exists n: nat :: n > 0 && SaysMaxAge(m.cacheControl, n))
  {
    DirectiveIff(m.cacheControl, "no-store");
    if n: nat :| n > 0 && SaysMaxAge(m.cacheControl, n) {
      SaidMaxAgeIsRead(m.cacheControl, n);
    }
    if MaxAge(m.cacheControl).Some? {
      ReadMaxAgeIsSaid(m.cacheControl);
      var n: nat :| SaysMaxAge(m.cacheControl, n);
      SaidMaxAgeIsRead(m.cacheControl, n);
    }
    hide Directive, MaxAge, Lists, SaysMaxAge;
  }

  // What is stored can be served or revalidated at once, unless an Expires or a max-age is all it has to
  // be reused by, and that is in the past or overruled by no-cache.
  lemma StoredIsOfUse(dates: Dates, m: Meta, bodyLen: nat)
    requires Storable(200, m, bodyLen)
    ensures Classify(dates, m, m.stored) != Unusable || m.expires != "" || HasDirective(m.cacheControl, "no-cache")
  {
    hide Directive, MaxAge;
  }
}
