/** The `form!` macro: it reads a non-empty, comma-separated list of
    `"key": value` entries and expands to code that builds the request body
    `k1=v1&k2=v2&...&kn=vn`.

    The model works on the values the expansion produces, not on Rust token
    streams. The macro input is a sequence of `Token`s; a value expression
    is one token, standing for what its `to_string()` gives at run time.
    Keys and values are put into the body as they are: nothing is
    percent-encoded, so this is the pair-joining shape of the
    application/x-www-form-urlencoded serializer (section 5.2 of the WHATWG
    URL Standard) without its encoding step. */
module FormMacro {
  import opened Wrappers

  /** One token of the macro input. `Str` is a string literal (its value);
      `Expr` any other expression, shown as its `to_string()`; `Other`
      anything that starts no expression. */
  datatype Token = Str(text: string) | Colon | Comma | Expr(shown: string) | Other

  datatype ParseError = ExpectedStringLiteral | ExpectedColon | ExpectedExpression | UnexpectedToken

  /** One parsed entry: the key literal's value and the value's rendering. */
  datatype FormKeyValue = FormKeyValue(key: string, value: string)

  predicate StartsExpression(t: Token) {
    t.Str? || t.Expr?
  }

  /** What a value expression's `to_string()` gives. */
  function Rendered(t: Token): string
    requires StartsExpression(t)
  {
    if t.Str? then t.text else t.shown
  }

  /** `FormKeyValue::parse`: a string literal, then `:`, then an expression.
      Returns the entry and the tokens after it. */
  function ParseKeyValue(ts: seq<Token>): (r: Result<(FormKeyValue, seq<Token>), ParseError>)
    ensures r.Ok? <==> |ts| >= 3 && ts[0].Str? && ts[1] == Colon && StartsExpression(ts[2])
    ensures r.Ok? ==> r.value == (FormKeyValue(ts[0].text, Rendered(ts[2])), ts[3..])
    ensures r.Err? && (ts == [] || !ts[0].Str?) ==> r.error == ExpectedStringLiteral
  {
    if |ts| == 0 || !ts[0].Str? then Err(ExpectedStringLiteral)
    else if |ts| == 1 || ts[1] != Colon then Err(ExpectedColon)
    else if |ts| == 2 || !StartsExpression(ts[2]) then Err(ExpectedExpression)
    else Ok((FormKeyValue(ts[0].text, Rendered(ts[2])), ts[3..]))
  }

  /** `FormData::parse` with the whole input consumed: one entry, then as long
      as a comma follows, the comma and another entry. A comma is always
      followed by an entry (no trailing comma), and a token left over after
      the last entry is an error. */
  function ParseFormData(ts: seq<Token>): (r: Result<seq<FormKeyValue>, ParseError>)
    ensures r.Ok? ==> |r.value| >= 1
    ensures ts == [] ==> r == Err(ExpectedStringLiteral)
    decreases |ts|
  {
    match ParseKeyValue(ts)
    case Err(e) => Err(e)
    case Ok((kv, rest)) =>
      if rest == [] then Ok([kv])
      else if rest[0] != Comma then Err(UnexpectedToken)
      else
        match ParseFormData(rest[1..])
        case Err(e) => Err(e)
        case Ok(more) => Ok([kv] + more)
  }

  /** The tokens that write one entry, with its value as an expression. */
  function EntryTokens(kv: FormKeyValue): seq<Token> {
    [Str(kv.key), Colon, Expr(kv.value)]
  }

  /** The tokens that write a non-empty entry list, separated by commas. */
  function ListTokens(es: seq<FormKeyValue>): seq<Token>
    requires |es| >= 1
  {
    if |es| == 1 then EntryTokens(es[0])
    else EntryTokens(es[0]) + [Comma] + ListTokens(es[1..])
  }

  /** Every non-empty entry list written out as tokens is parsed back to
      itself: same entries, same order, keys kept with their values. */
  lemma {:induction false} ParseListTokens(es: seq<FormKeyValue>)
    requires |es| >= 1
    ensures ParseFormData(ListTokens(es)) == Ok(es)
  {
    var e := es[0];
    assert ParseKeyValue(EntryTokens(e) + []) == Ok((e, []));
    if |es| == 1 {
      assert EntryTokens(e) + [] == EntryTokens(e);
      assert es == [e];
    } else {
      var tail := ListTokens(es[1..]);
      assert (EntryTokens(e) + [Comma] + tail)[3..] == [Comma] + tail;
      assert ([Comma] + tail)[1..] == tail;
      ParseListTokens(es[1..]);
      assert [e] + es[1..] == es;
    }
  }

  /** A trailing comma is rejected. */
  lemma {:induction false} TrailingCommaRejected(es: seq<FormKeyValue>)
    requires |es| >= 1
    ensures ParseFormData(ListTokens(es) + [Comma]).Err?
  {
    var e := es[0];
    if |es| == 1 {
      assert (EntryTokens(e) + [Comma])[3..] == [Comma];
      assert [Comma][1..] == [];
    } else {
      var tail := ListTokens(es[1..]);
      assert ListTokens(es) + [Comma] == EntryTokens(e) + [Comma] + (tail + [Comma]);
      assert (EntryTokens(e) + [Comma] + (tail + [Comma]))[3..] == [Comma] + (tail + [Comma]);
      assert ([Comma] + (tail + [Comma]))[1..] == tail + [Comma];
      TrailingCommaRejected(es[1..]);
    }
  }

  /** The first three tokens of `ts` write the entry `kv`: its key as a
      string literal, `:`, and an expression that renders as its value. */
  predicate WritesEntry(ts: seq<Token>, kv: FormKeyValue) {
    && |ts| >= 3
    && ts[0] == Str(kv.key) && ts[1] == Colon
    && StartsExpression(ts[2]) && Rendered(ts[2]) == kv.value
  }

  /** `ts` is exactly the entries `es` written one after another with a comma
      between each two, and nothing else. */
  predicate Writes(ts: seq<Token>, es: seq<FormKeyValue>)
    decreases |es|
  {
    && |es| >= 1
    && WritesEntry(ts, es[0])
    && if |es| == 1 then |ts| == 3
       else |ts| >= 4 && ts[3] == Comma && Writes(ts[4..], es[1..])
  }

  /** The parser accepts exactly the inputs that write an entry list: a
      successful parse means the input was the entries it returns, separated
      by commas, with no token left over, and every such input is parsed to
      those entries. */
  lemma {:induction false} ParseFormDataWrites(ts: seq<Token>, es: seq<FormKeyValue>)
    ensures ParseFormData(ts) == Ok(es) <==> Writes(ts, es)
    decreases |ts|
  {
    if ParseKeyValue(ts).Err? || |es| == 0 {
    } else if |ts| == 3 {
      var kv := ParseKeyValue(ts).value.0;
      assert ParseFormData(ts) == Ok([kv]);
      assert Writes(ts, es) ==> es == [kv];
    } else if ts[3] == Comma {
      var kv := ParseKeyValue(ts).value.0;
      assert ts[3..][1..] == ts[4..];
      ParseFormDataWrites(ts[4..], es[1..]);
      assert es == [es[0]] + es[1..];
      match ParseFormData(ts[4..])
      case Err(_) =>
      case Ok(more) =>
        assert ParseFormData(ts) == Ok([kv] + more);
        assert ([kv] + more)[1..] == more;
    }
  }

  /** An accepted input has three tokens per entry and a comma between each
      two entries. */
  lemma {:induction false} WritesLength(ts: seq<Token>, es: seq<FormKeyValue>)
    requires Writes(ts, es)
    ensures |ts| == 4 * |es| - 1
    decreases |es|
  {
    if |es| > 1 {
      WritesLength(ts[4..], es[1..]);
    }
  }

  /** A token other than a comma after a complete entry list is rejected as
      unexpected. */
  lemma {:induction false} LeftoverTokenRejected(es: seq<FormKeyValue>, t: Token)
    requires |es| >= 1 && t != Comma
    ensures ParseFormData(ListTokens(es) + [t]) == Err(UnexpectedToken)
  {
    var e := es[0];
    if |es| == 1 {
      assert (EntryTokens(e) + [t])[3..] == [t];
    } else {
      var tail := ListTokens(es[1..]);
      assert ListTokens(es) + [t] == EntryTokens(e) + [Comma] + (tail + [t]);
      assert (EntryTokens(e) + [Comma] + (tail + [t]))[3..] == [Comma] + (tail + [t]);
      assert ([Comma] + (tail + [t]))[1..] == tail + [t];
      LeftoverTokenRejected(es[1..], t);
    }
  }

  /** One pair as the body shows it: key, `=`, value. */
  function Pair(kv: FormKeyValue): string {
    kv.key + "=" + kv.value
  }

  /** The body the expansion builds: the pairs in source order, joined by
      `&`. */
  function FormBody(es: seq<FormKeyValue>): (body: string)
    requires |es| >= 1
    ensures Pair(es[0]) <= body
    ensures |body| >= |es| * 2 - 1
  {
    if |es| == 1 then Pair(es[0])
    else Pair(es[0]) + "&" + FormBody(es[1..])
  }

  /** Appending an entry appends `&` and its pair to the body. */
  lemma {:induction false} FormBodySnoc(es: seq<FormKeyValue>, kv: FormKeyValue)
    requires |es| >= 1
    ensures FormBody(es + [kv]) == FormBody(es) + "&" + Pair(kv)
  {
    if |es| == 1 {
      assert (es + [kv])[1..] == [kv];
    } else {
      assert (es + [kv])[1..] == es[1..] + [kv];
      FormBodySnoc(es[1..], kv);
    }
  }

  /** The body begins with the first pair and ends with the last one: no `&`
      is put before the first pair or after the last. */
  lemma {:induction false} FormBodyEnds(es: seq<FormKeyValue>)
    requires |es| >= 1
    ensures Pair(es[0]) <= FormBody(es)
    ensures var body, last := FormBody(es), Pair(es[|es| - 1]);
            |last| <= |body| && body[|body| - |last|..] == last
  {
    var n := |es|;
    if n > 1 {
      assert es == es[..n - 1] + [es[n - 1]];
      FormBodySnoc(es[..n - 1], es[n - 1]);
      assert es[..n - 1][0] == es[0];
      FormBodyEnds(es[..n - 1]);
    }
  }

  /** A single entry gives exactly `key=value`. */
  lemma SingleEntryBody(kv: FormKeyValue)
    ensures FormBody([kv]) == kv.key + "=" + kv.value
  {
  }

  /** What `form!` evaluates to for the given input: the parse error, or
      the body built from the parsed entries. */
  function Expansion(ts: seq<Token>): Result<string, ParseError> {
    match ParseFormData(ts)
    case Err(e) => Err(e)
    case Ok(es) => Ok(FormBody(es))
  }

  /** The `form` macro and the code it emits: parse, split the entries into
      keys and values, take the last pair off, append every other pair
      followed by `&`, then the last pair. */
  method Form(ts: seq<Token>) returns (r: Result<string, ParseError>)
    ensures r == Expansion(ts)
  {
    var parsed := ParseFormData(ts);
    if parsed.Err? {
      return Err(parsed.error);
    }
    var es := parsed.value;
    var keys := seq(|es|, i requires 0 <= i < |es| => es[i].key);
    var values := seq(|es|, i requires 0 <= i < |es| => es[i].value);
    var lastKey, lastValue := keys[|keys| - 1], values[|values| - 1];
    keys, values := keys[..|keys| - 1], values[..|values| - 1];
    var builder := "";
    for i := 0 to |keys|
      invariant i == 0 ==> builder == ""
      invariant i > 0 ==> builder == FormBody(es[..i]) + "&"
    {
      ghost var before := builder;
      builder := builder + keys[i] + "=" + values[i] + "&";
      assert builder == before + Pair(es[i]) + "&";
      if i == 0 {
        assert es[..1] == [es[0]];
      } else {
        assert es[..i + 1] == es[..i] + [es[i]];
        FormBodySnoc(es[..i], es[i]);
      }
    }
    ghost var before := builder;
    builder := builder + lastKey + "=" + lastValue;
    assert builder == before + Pair(es[|keys|]);
    if |keys| > 0 {
      assert es == es[..|keys|] + [es[|keys|]];
      FormBodySnoc(es[..|keys|], es[|keys|]);
    } else {
      assert es == [es[0]];
    }
    assert builder == FormBody(es);
    r := Ok(builder);
  }

  /** The first part of `s` up to the first `c`, and the rest after it
      (everything and nothing when `c` does not occur). */
  function BreakAt(s: string, c: char): (r: (string, string))
    ensures c !in r.0
    ensures c in s ==> s == r.0 + [c] + r.1
    ensures c !in s ==> r == (s, [])
  {
    if s == [] then ([], [])
    else if s[0] == c then ([], s[1..])
    else
      var (before, after) := BreakAt(s[1..], c);
      assert s == [s[0]] + s[1..];
      ([s[0]] + before, after)
  }

  /** `s` cut at every `c`. */
  function Split(s: string, c: char): (parts: seq<string>)
    ensures |parts| >= 1
    decreases |s|
  {
    if c !in s then [s]
    else
      var (before, after) := BreakAt(s, c);
      [before] + Split(after, c)
  }

  /** A body read back into pairs: cut at every `&`, and each piece at its
      first `=` (a piece without `=` is a key with an empty value). */
  function ReadBack(body: string): seq<FormKeyValue> {
    ReadPairs(Split(body, '&'))
  }

  function ReadPairs(pieces: seq<string>): (es: seq<FormKeyValue>)
    ensures |es| == |pieces|
  {
    if pieces == [] then []
    else
      var (k, v) := BreakAt(pieces[0], '=');
      [FormKeyValue(k, v)] + ReadPairs(pieces[1..])
  }

  lemma {:induction false} BreakAtFirst(a: string, c: char, b: string)
    requires c !in a
    ensures BreakAt(a + [c] + b, c) == (a, b)
  {
    if a == [] {
      assert a + [c] + b == [c] + b;
    } else {
      assert (a + [c] + b)[0] == a[0] != c;
      assert (a + [c] + b)[1..] == a[1..] + [c] + b;
      BreakAtFirst(a[1..], c, b);
      assert [a[0]] + a[1..] == a;
    }
  }

  lemma SplitAtFirst(a: string, c: char, b: string)
    requires c !in a
    ensures Split(a + [c] + b, c) == [a] + Split(b, c)
  {
    assert (a + [c] + b)[|a|] == c;
    BreakAtFirst(a, c, b);
  }

  /** An entry whose key holds neither `&` nor `=` and whose value holds no `&`. */
  predicate Plain(kv: FormKeyValue) {
    '&' !in kv.key && '=' !in kv.key && '&' !in kv.value
  }

  /** The body is read back to the same entries, in the same order, as long
      as every entry is plain: the `&` and `=` the expansion adds are then
      the only separators in the body. */
  lemma {:induction false} ReadBackFormBody(es: seq<FormKeyValue>)
    requires |es| >= 1
    requires forall i :: 0 <= i < |es| ==> Plain(es[i])
    ensures ReadBack(FormBody(es)) == es
  {
    var kv := es[0];
    BreakAtFirst(kv.key, '=', kv.value);
    assert Pair(kv) == kv.key + ['='] + kv.value;
    assert '&' !in Pair(kv);
    if |es| == 1 {
      assert ReadPairs([Pair(kv)]) == [kv];
    } else {
      var rest := FormBody(es[1..]);
      assert FormBody(es) == Pair(kv) + ['&'] + rest;
      SplitAtFirst(Pair(kv), '&', rest);
      ReadBackFormBody(es[1..]);
      var pieces := [Pair(kv)] + Split(rest, '&');
      assert pieces[1..] == Split(rest, '&');
      assert ReadPairs(pieces) == [kv] + es[1..];
      assert [kv] + es[1..] == es;
    }
  }

  /** Values go into the body raw: a value holding `&` and `=` gives the same
      body as two separate entries, so the body no longer tells them apart. */
  lemma RawValuesNotEncoded()
    ensures FormBody([FormKeyValue("a", "1&b=2")])
         == FormBody([FormKeyValue("a", "1"), FormKeyValue("b", "2")])
         == "a=1&b=2"
    ensures ReadBack(FormBody([FormKeyValue("a", "1&b=2")])) != [FormKeyValue("a", "1&b=2")]
  {
    var two := [FormKeyValue("a", "1"), FormKeyValue("b", "2")];
    assert two[1..] == [FormKeyValue("b", "2")];
    ReadBackFormBody(two);
  }

  /** The body the login test builds from `"username": "admin"` and
      `"password": "admin"`. */
  lemma AdminLoginBody()
    ensures Expansion([Str("username"), Colon, Str("admin"), Comma, Str("password"), Colon, Str("admin")])
         == Ok("username=admin&password=admin")
  {
    var second := [Str("password"), Colon, Str("admin")];
    var ts := [Str("username"), Colon, Str("admin")] + [Comma] + second;
    var user, pass := FormKeyValue("username", "admin"), FormKeyValue("password", "admin");
    assert ts == [Str("username"), Colon, Str("admin"), Comma, Str("password"), Colon, Str("admin")];
    assert second[3..] == [];
    assert ParseKeyValue(second) == Ok((pass, []));
    assert ParseFormData(second) == Ok([pass]);
    assert ts[3..] == [Comma] + second;
    assert ParseKeyValue(ts) == Ok((user, [Comma] + second));
    assert ([Comma] + second)[0] == Comma && ([Comma] + second)[1..] == second;
    assert [user] + [pass] == [user, pass];
    assert ParseFormData(ts) == Ok([user, pass]);
    AdminLoginText();
  }

  lemma AdminLoginText()
    ensures FormBody([FormKeyValue("username", "admin"), FormKeyValue("password", "admin")])
         == "username=admin&password=admin"
  {
    var user, pass := FormKeyValue("username", "admin"), FormKeyValue("password", "admin");
    assert [user, pass][1..] == [pass];
    assert FormBody([user, pass]) == Pair(user) + "&" + Pair(pass);
  }
}
