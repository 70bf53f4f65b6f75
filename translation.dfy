/**
 * The translation function `t` of lib/useTranslation.ts: a dotted key is split
 * into segments, the message table is descended one segment at a time, and a
 * string found there has its `{name}` placeholders filled from the parameters.
 * Any other outcome returns the key itself.
 */
module Translation {
  import opened Wrappers
  import I18nClient

  // ---------------------------------------------------------------------------
  // Message tables
  // ---------------------------------------------------------------------------

  /**
   * A JSON value of a message table: a string, an object, an array, or one of
   * the atoms (number, boolean, null), which have no properties of their own.
   */
  datatype Json = Str(s: string) | Obj(fields: map<string, Json>) | Arr(items: seq<Json>) | Atom

  /** The two message tables the application ships. */
  datatype Catalogs = Catalogs(en: Json, tr: Json)

  /** `locale === 'tr' ? trMessages : enMessages` */
  function CatalogFor(locale: I18nClient.Locale, tables: Catalogs): (m: Json)
    ensures locale == "tr" ==> m == tables.tr
    ensures locale == "en" ==> m == tables.en
  {
    if locale == "tr" then tables.tr else tables.en
  }

  // ---------------------------------------------------------------------------
  // Splitting the key on '.'
  // ---------------------------------------------------------------------------

  /** `key.split('.')`: the dot-free segments of `s`, empty ones included. */
  function Split(s: string): (r: seq<string>)
    ensures |r| >= 1
    ensures forall i :: 0 <= i < |r| ==> '.' !in r[i]
    decreases |s|
  {
    if s == [] then [""]
    else if s[0] == '.' then [""] + Split(s[1..])
    else
      var rest := Split(s[1..]);
      [[s[0]] + rest[0]] + rest[1..]
  }

  /** `parts.join('.')`, the inverse of `Split`. */
  function Join(parts: seq<string>): string
  {
    if |parts| == 0 then ""
    else if |parts| == 1 then parts[0]
    else parts[0] + "." + Join(parts[1..])
  }

  /** Joining the segments back with '.' gives the key: splitting loses nothing. */
  lemma {:induction false} JoinSplit(s: string)
    ensures Join(Split(s)) == s
    decreases |s|
  {
    if s == [] {
    } else if s[0] == '.' {
      JoinSplit(s[1..]);
      assert Split(s)[1..] == Split(s[1..]);
      assert s == "." + s[1..];
    } else {
      var rest := Split(s[1..]);
      JoinSplit(s[1..]);
      if |rest| == 1 {
        assert Split(s) == [[s[0]] + rest[0]];
        assert s == [s[0]] + s[1..];
      } else {
        assert Split(s)[1..] == rest[1..];
        assert Join(rest) == rest[0] + "." + Join(rest[1..]);
        assert s == [s[0]] + s[1..];
      }
    }
  }

  /** A dot-free prefix joins the first segment of what follows it. */
  lemma {:induction false} SplitPrepend(p: string, s: string)
    requires '.' !in p
    ensures Split(p + s) == [p + Split(s)[0]] + Split(s)[1..]
    decreases |p|
  {
    if p == [] {
      assert p + s == s;
      assert Split(s) == [Split(s)[0]] + Split(s)[1..];
      assert p + Split(s)[0] == Split(s)[0];
    } else {
      assert (p + s)[1..] == p[1..] + s;
      SplitPrepend(p[1..], s);
      assert [p[0]] + (p[1..] + Split(s)[0]) == p + Split(s)[0];
    }
  }

  /** Splitting a join of dot-free segments gives those segments back. */
  lemma {:induction false} SplitJoin(parts: seq<string>)
    requires |parts| >= 1
    requires forall i :: 0 <= i < |parts| ==> '.' !in parts[i]
    ensures Split(Join(parts)) == parts
    decreases |parts|
  {
    if |parts| == 1 {
      SplitPrepend(parts[0], "");
      assert parts[0] + "" == parts[0];
    } else {
      var tail := Join(parts[1..]);
      SplitJoin(parts[1..]);
      assert ("." + tail)[1..] == tail;
      assert Split("." + tail) == [""] + parts[1..];
      SplitPrepend(parts[0], "." + tail);
      assert parts[0] + "." + tail == parts[0] + ("." + tail);
      assert parts[0] + "" == parts[0];
    }
  }

  // ---------------------------------------------------------------------------
  // Property access `value?.[k]`
  // ---------------------------------------------------------------------------

  predicate IsDigit(c: char)
  {
    '0' <= c <= '9'
  }

  /** A canonical array index: decimal digits with no leading zero. */
  predicate IsIndex(k: string)
  {
    |k| >= 1 && (forall i :: 0 <= i < |k| ==> IsDigit(k[i])) && (k[0] != '0' || |k| == 1)
  }

  function DigitValue(c: char): nat
    requires IsDigit(c)
  {
    c as int - '0' as int
  }

  /** The number written by a string of decimal digits. */
  function DecimalValue(k: string): nat
    requires forall i :: 0 <= i < |k| ==> IsDigit(k[i])
    decreases |k|
  {
    if k == [] then 0
    else 10 * DecimalValue(k[..|k| - 1]) + DigitValue(k[|k| - 1])
  }

  /** The decimal form of `n`, as JavaScript prints a non-negative integer. */
  function Decimal(n: nat): (r: string)
    ensures |r| >= 1 && forall i :: 0 <= i < |r| ==> IsDigit(r[i])
    decreases n
  {
    if n < 10 then [('0' as int + n) as char]
    else Decimal(n / 10) + [('0' as int + n % 10) as char]
  }

  /** Every natural number's decimal form is a canonical index that reads back as it. */
  lemma {:induction false} DecimalIsIndex(n: nat)
    ensures IsIndex(Decimal(n)) && DecimalValue(Decimal(n)) == n
    decreases n
  {
    if n >= 10 {
      DecimalIsIndex(n / 10);
      var d := Decimal(n);
      assert d[..|d| - 1] == Decimal(n / 10);
      assert d[0] == Decimal(n / 10)[0];
    }
  }

  /** A digit string whose first digit is not '0' denotes a positive number. */
  lemma {:induction false} LeadingDigitPositive(k: string)
    requires |k| >= 1 && (forall i :: 0 <= i < |k| ==> IsDigit(k[i])) && k[0] != '0'
    ensures DecimalValue(k) >= 1
    decreases |k|
  {
    if |k| > 1 {
      LeadingDigitPositive(k[..|k| - 1]);
    }
  }

  /** A canonical index is exactly the decimal form of the number it denotes. */
  lemma {:induction false} IndexIsDecimal(k: string)
    requires IsIndex(k)
    ensures Decimal(DecimalValue(k)) == k
    decreases |k|
  {
    if |k| > 1 {
      var front := k[..|k| - 1];
      LeadingDigitPositive(front);
      IndexIsDecimal(front);
      assert k == front + [k[|k| - 1]];
    }
  }

  /**
   * One property access. Objects yield their own fields; strings and arrays
   * yield the element at a canonical index (a string's element being a
   * one-character string) and a number for "length"; atoms yield nothing.
   */
  function Step(v: Json, k: string): (r: Option<Json>)
    ensures v.Obj? ==> r == Get(v.fields, k)
    ensures v.Atom? ==> r.None?
    ensures v.Str? && IsIndex(k) && DecimalValue(k) < |v.s| ==> r == Some(Str([v.s[DecimalValue(k)]]))
    ensures v.Arr? && IsIndex(k) && DecimalValue(k) < |v.items| ==> r == Some(v.items[DecimalValue(k)])
    ensures (v.Str? || v.Arr?) && k == "length" ==> r == Some(Atom)
    ensures v.Str? && !(IsIndex(k) && DecimalValue(k) < |v.s|) && k != "length" ==> r.None?
    ensures v.Arr? && !(IsIndex(k) && DecimalValue(k) < |v.items|) && k != "length" ==> r.None?
  {
    match v
    case Obj(fields) => Get(fields, k)
    case Arr(items) =>
      if IsIndex(k) && DecimalValue(k) < |items| then Some(items[DecimalValue(k)])
      else if k == "length" then Some(Atom)
      else None
    case Str(s) =>
      if IsIndex(k) && DecimalValue(k) < |s| then Some(Str([s[DecimalValue(k)]]))
      else if k == "length" then Some(Atom)
      else None
    case Atom => None
  }

  /** Descend from `v` along `keys`, first segment first; `None` once a step finds nothing. */
  function Walk(v: Json, keys: seq<string>): (r: Option<Json>)
    ensures keys == [] ==> r == Some(v)
    ensures |keys| == 1 ==> r == Step(v, keys[0])
    ensures v.Atom? && keys != [] ==> r.None?
    decreases |keys|
  {
    if keys == [] then Some(v)
    else
      match Step(v, keys[0])
      case None => None
      case Some(w) => Walk(w, keys[1..])
  }

  /** Walking a concatenated path is walking its first part and then its second. */
  lemma {:induction false} WalkAppend(v: Json, a: seq<string>, b: seq<string>)
    ensures Walk(v, a + b) == match Walk(v, a) case None => None case Some(w) => Walk(w, b)
    decreases |a|
  {
    if a == [] {
      assert a + b == b;
    } else {
      assert (a + b)[1..] == a[1..] + b;
      match Step(v, a[0])
      case None =>
      case Some(w) => WalkAppend(w, a[1..], b);
    }
  }

  // ---------------------------------------------------------------------------
  // Placeholder replacement `value.replace(/\{(\w+)\}/g, …)`
  // ---------------------------------------------------------------------------

  /** A character of the regular-expression class `\w`. */
  predicate IsWordChar(c: char)
  {
    ('A' <= c <= 'Z') || ('a' <= c <= 'z') || ('0' <= c <= '9') || c == '_'
  }

  /** A placeholder name: one or more word characters. */
  predicate IsName(n: string)
  {
    |n| >= 1 && forall i :: 0 <= i < |n| ==> IsWordChar(n[i])
  }

  /** The length of the longest prefix of `s` made of word characters. */
  function WordRun(s: string): (n: nat)
    ensures n <= |s|
    ensures forall i :: 0 <= i < n ==> IsWordChar(s[i])
    ensures n < |s| ==> !IsWordChar(s[n])
    decreases |s|
  {
    if s == [] || !IsWordChar(s[0]) then 0 else 1 + WordRun(s[1..])
  }

  /** `s` starts with the placeholder `{n}`. */
  ghost predicate OpensWith(s: string, n: string)
  {
    IsName(n) && |n| + 2 <= |s| && s[0] == '{' && s[1..|n| + 1] == n && s[|n| + 1] == '}'
  }

  /** A name followed by '}' is exactly the run of word characters it begins. */
  lemma WordRunOfName(t: string, n: string)
    requires IsName(n) && |n| < |t| && t[..|n|] == n && t[|n|] == '}'
    ensures WordRun(t) == |n|
  {
  }

  /** A string that starts with `{n}` is `{n}` followed by the rest. */
  lemma OpensWithText(s: string, n: string)
    requires OpensWith(s, n)
    ensures s == "{" + n + "}" + s[|n| + 2..]
  {
  }

  /** `{n}` followed by anything starts with `{n}`. */
  lemma TextOpensWith(n: string, rest: string)
    requires IsName(n)
    ensures OpensWith("{" + n + "}" + rest, n) && ("{" + n + "}" + rest)[|n| + 2..] == rest
  {
  }

  /** The name of the placeholder `{name}` that `s` starts with, if it starts with one. */
  function PlaceholderAt(s: string): (r: Option<string>)
    ensures r.Some? ==> OpensWith(s, r.value)
    ensures forall n :: OpensWith(s, n) ==> r == Some(n)
  {
    if |s| > 0 && s[0] == '{' then
      var w := WordRun(s[1..]);
      assert forall n :: OpensWith(s, n) ==> w == |n| by {
        forall n | OpensWith(s, n) ensures w == |n| {
          assert s[1..][..|n|] == s[1..|n| + 1];
          WordRunOfName(s[1..], n);
        }
      }
      if w > 0 && w + 1 < |s| && s[w + 1] == '}' then Some(s[1..w + 1])
      else None
    else None
  }

  /** A template cut into literal characters and placeholders. */
  datatype Piece = Lit(c: char) | Hole(name: string)

  /**
   * The leftmost, non-overlapping matches of `\{(\w+)\}` in `s`, scanning left
   * to right and resuming after each match, with the text around them.
   */
  function Scan(s: string): (ps: seq<Piece>)
    ensures forall i :: 0 <= i < |ps| && ps[i].Hole? ==> IsName(ps[i].name)
    decreases |s|
  {
    if s == [] then []
    else
      match PlaceholderAt(s)
      case Some(n) => [Hole(n)] + Scan(s[|n| + 2..])
      case None => [Lit(s[0])] + Scan(s[1..])
  }

  /** The text of a piece: the character itself, or the placeholder as written. */
  function PieceText(p: Piece): string
  {
    match p
    case Lit(c) => [c]
    case Hole(n) => "{" + n + "}"
  }

  /** The template the pieces were cut from. */
  function Render(ps: seq<Piece>): string
    decreases |ps|
  {
    if ps == [] then "" else PieceText(ps[0]) + Render(ps[1..])
  }

  /** A placeholder whose name is a parameter becomes that parameter's value; any other piece stays as written. */
  function FillPiece(p: Piece, params: map<string, string>): string
  {
    if p.Hole? && p.name in params then params[p.name] else PieceText(p)
  }

  /** The pieces with every matched placeholder replaced; values are inserted as they are. */
  function Fill(ps: seq<Piece>, params: map<string, string>): string
    decreases |ps|
  {
    if ps == [] then "" else FillPiece(ps[0], params) + Fill(ps[1..], params)
  }

  /** The replacement the source performs on a resolved string. */
  function Interpolate(s: string, params: map<string, string>): (r: string)
    ensures (forall i :: 0 <= i < |Scan(s)| && Scan(s)[i].Hole? ==> Scan(s)[i].name !in params) ==> r == s
  {
    var ps := Scan(s);
    assert (forall i :: 0 <= i < |ps| && ps[i].Hole? ==> ps[i].name !in params) ==> Fill(ps, params) == s by {
      if forall i :: 0 <= i < |ps| && ps[i].Hole? ==> ps[i].name !in params {
        FillUnmatched(ps, params);
        ScanRender(s);
      }
    }
    Fill(ps, params)
  }

  /** Cutting a template into pieces loses nothing and reorders nothing. */
  lemma {:induction false} ScanRender(s: string)
    ensures Render(Scan(s)) == s
    decreases |s|
  {
    if s != [] {
      match PlaceholderAt(s)
      case Some(n) =>
        var tail := Scan(s[|n| + 2..]);
        ScanRender(s[|n| + 2..]);
        OpensWithText(s, n);
        assert ([Hole(n)] + tail)[1..] == tail;
      case None =>
        var tail := Scan(s[1..]);
        ScanRender(s[1..]);
        assert ([Lit(s[0])] + tail)[1..] == tail;
        assert s == [s[0]] + s[1..];
    }
  }

  /** Pieces whose placeholders are all unmatched fill to their own text. */
  lemma {:induction false} FillUnmatched(ps: seq<Piece>, params: map<string, string>)
    requires forall i :: 0 <= i < |ps| && ps[i].Hole? ==> ps[i].name !in params
    ensures Fill(ps, params) == Render(ps)
    decreases |ps|
  {
    if ps != [] {
      FillUnmatched(ps[1..], params);
    }
  }

  /** With an empty parameter object every placeholder is left as written. */
  lemma InterpolateNoParams(s: string)
    ensures Interpolate(s, map[]) == s
  {
  }

  /**
   * A leading placeholder `{n}` becomes `params[n]` (or stays as written when `n`
   * is not a parameter), and the rest is filled on its own: the inserted value is
   * not scanned for further placeholders.
   */
  lemma InterpolatePlaceholder(n: string, rest: string, params: map<string, string>)
    requires IsName(n)
    ensures Interpolate("{" + n + "}" + rest, params)
      == (if n in params then params[n] else "{" + n + "}") + Interpolate(rest, params)
  {
    var s := "{" + n + "}" + rest;
    TextOpensWith(n, rest);
    assert PlaceholderAt(s) == Some(n);
    var tail := Scan(rest);
    assert Scan(s) == [Hole(n)] + tail;
    assert ([Hole(n)] + tail)[1..] == tail;
    assert Fill(Scan(s), params) == FillPiece(Hole(n), params) + Fill(tail, params);
  }

  /** Text without '{' before a template is copied unchanged, in order. */
  lemma {:induction false} InterpolatePlainPrefix(a: string, rest: string, params: map<string, string>)
    requires '{' !in a
    ensures Interpolate(a + rest, params) == a + Interpolate(rest, params)
    decreases |a|
  {
    if a != [] {
      var s := a + rest;
      assert s[0] == a[0] && s[1..] == a[1..] + rest;
      assert a[0] != '{';
      assert PlaceholderAt(s).None?;
      var tail := Scan(a[1..] + rest);
      assert Scan(s) == [Lit(a[0])] + tail;
      assert ([Lit(a[0])] + tail)[1..] == tail;
      assert Fill(Scan(s), params) == [a[0]] + Fill(tail, params);
      assert Fill(tail, params) == Interpolate(a[1..] + rest, params);
      InterpolatePlainPrefix(a[1..], rest, params);
      assert Interpolate(a + rest, params) == [a[0]] + (a[1..] + Interpolate(rest, params));
      assert a == [a[0]] + a[1..];
    } else {
      assert a + rest == rest;
    }
  }

  /** The empty template fills to the empty string. */
  lemma InterpolateEmpty(params: map<string, string>)
    ensures Interpolate("", params) == ""
  {
  }

  /**
   * A character that does not open a placeholder (a '{' not followed by a name
   * and '}', or any other character) is copied as it is, and the scan resumes at
   * the next character.
   */
  lemma InterpolateLiteral(s: string, params: map<string, string>)
    requires s != [] && PlaceholderAt(s).None?
    ensures Interpolate(s, params) == [s[0]] + Interpolate(s[1..], params)
  {
    var tail := Scan(s[1..]);
    assert Scan(s) == [Lit(s[0])] + tail;
    assert ([Lit(s[0])] + tail)[1..] == tail;
  }

  /** `{{x}}` keeps its outer braces and fills the inner placeholder. */
  lemma DoubledBraces()
    ensures Interpolate("{{x}}", map["x" := "1"]) == "{1}"
  {
    var p := map["x" := "1"];
    assert "{{x}}"[1..] == "{x}}" && "{x}}"[0] == '{' && !IsWordChar('{');
    assert WordRun("{x}}") == 0;
    assert PlaceholderAt("{{x}}").None?;
    InterpolateLiteral("{{x}}", p);
    assert "{{x}}"[1..] == "{" + "x" + "}" + "}";
    InterpolatePlaceholder("x", "}", p);
    assert PlaceholderAt("}").None?;
    InterpolateLiteral("}", p);
    InterpolateEmpty(p);
  }

  /** A value that itself looks like a placeholder is inserted verbatim. */
  lemma ValuesAreNotRescanned()
    ensures Interpolate("{a}", map["a" := "{b}", "b" := "x"]) == "{b}"
  {
    InterpolatePlaceholder("a", "", map["a" := "{b}", "b" := "x"]);
    assert "{" + "a" + "}" + "" == "{a}";
  }

  // ---------------------------------------------------------------------------
  // The translation function
  // ---------------------------------------------------------------------------

  /** What `t(key, params)` returns when the active table is `messages`. */
  function Translate(messages: Json, key: string, params: Option<map<string, string>>): (r: string)
    ensures r != key ==> Walk(messages, Split(key)).Some? && Walk(messages, Split(key)).value.Str?
  {
    match Walk(messages, Split(key))
    case Some(Str(s)) => if params.Some? then Interpolate(s, params.value) else s
    case _ => key
  }

  /** `t(key, params)`: split the key, walk the table, then fill the string found. */
  method T(messages: Json, key: string, params: Option<map<string, string>>) returns (r: string)
    ensures r == Translate(messages, key, params)
  {
    var keys := Split(key);
    var value := messages;
    var i := 0;
    while i < |keys|
      invariant 0 <= i <= |keys|
      invariant Walk(messages, keys) == Walk(value, keys[i..])
    {
      var next := Step(value, keys[i]);
      if next.None? {
        return key;
      }
      value := next.value;
      i := i + 1;
    }
    if !value.Str? {
      return key;
    }
    if params.Some? {
      return Interpolate(value.s, params.value);
    }
    return value.s;
  }

  /** `useTranslation()`: `t` reads the table that the current locale selects. */
  method UseTranslationT(locale: I18nClient.Locale, tables: Catalogs, key: string, params: Option<map<string, string>>)
    returns (r: string)
    ensures locale == "tr" ==> r == Translate(tables.tr, key, params)
    ensures locale == "en" ==> r == Translate(tables.en, key, params)
  {
    var messages := CatalogFor(locale, tables);
    r := T(messages, key, params);
  }

  /** A segment absent at its level makes the result the key itself. */
  lemma MissingSegmentGivesKey(messages: Json, key: string, params: Option<map<string, string>>, i: int, v: Json)
    requires 0 <= i < |Split(key)|
    requires Walk(messages, Split(key)[..i]) == Some(v)
    requires Step(v, Split(key)[i]).None?
    ensures Translate(messages, key, params) == key
  {
    var keys := Split(key);
    assert keys == keys[..i] + keys[i..];
    WalkAppend(messages, keys[..i], keys[i..]);
  }

  /**
   * The result is the key whenever the path does not end on a string; on a
   * string and without parameters it is that string unchanged.
   */
  lemma TranslateOutcome(messages: Json, key: string, params: Option<map<string, string>>)
    ensures (Walk(messages, Split(key)).None? || !Walk(messages, Split(key)).value.Str?)
            ==> Translate(messages, key, params) == key
    ensures Walk(messages, Split(key)).Some? && Walk(messages, Split(key)).value.Str? && params.None?
            ==> Translate(messages, key, params) == Walk(messages, Split(key)).value.s
  {
  }

  /** Each dot-free segment descends one level, in order: `t("a.b")` reads `messages.a.b`. */
  lemma NestedKey(a: string, b: string, text: string)
    requires '.' !in a && '.' !in b
    ensures Translate(Obj(map[a := Obj(map[b := Str(text)])]), a + "." + b, None) == text
  {
    SplitJoin([a, b]);
    assert Join([a, b]) == a + "." + b;
    var keys := Split(a + "." + b);
    var inner := Obj(map[b := Str(text)]);
    assert keys[1..] == [b] && keys[1..][1..] == [];
    assert Walk(inner, [b]) == Walk(Str(text), []);
    assert Walk(Obj(map[a := inner]), keys) == Walk(inner, [b]);
  }
}
