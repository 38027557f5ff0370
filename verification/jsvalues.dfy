/** JavaScript values as they reach the relay: handshake claims, event payload fields
    and environment settings. Only the parts of JavaScript semantics the relay relies
    on are modelled: truthiness, `String(x)`, `s.slice(0, n)` and the markup-stripping
    `replace(/[<>&"']/g, '')`. Numbers are integers; floating point is not modelled. */
module JsValues {

  datatype Option<+T> = None | Some(value: T)

  /** A JavaScript value. `Obj` stands for any plain object. */
  datatype JsValue =
    | Undefined
    | Null
    | Bool(b: bool)
    | Num(n: int)
    | Str(s: string)
    | Obj

  /** JavaScript truthiness (`!!v`). */
  predicate Truthy(v: JsValue)
  {
    match v
    case Undefined => false
    case Null => false
    case Bool(b) => b
    case Num(n) => n != 0
    case Str(s) => |s| > 0
    case Obj => true
  }

  /** `a || b` */
  function Or(a: JsValue, b: JsValue): (r: JsValue)
    ensures Truthy(a) ==> r == a
    ensures !Truthy(a) ==> r == b
  {
    if Truthy(a) then a else b
  }

  /** The guard `!v || typeof v !== 'string'` fails exactly for non-empty strings;
      this returns that string. */
  function NonEmptyText(v: JsValue): (r: Option<string>)
    ensures r.Some? <==> v.Str? && |v.s| > 0
    ensures r.Some? ==> v == Str(r.value)
  {
    match v
    case Str(s) => if |s| > 0 then Some(s) else None
    case _ => None
  }

  predicate IsDigit(c: char)
  {
    '0' <= c <= '9'
  }

  function DigitChar(d: nat): (c: char)
    requires d < 10
    ensures IsDigit(c) && DigitValue(c) == d
  {
    ['0', '1', '2', '3', '4', '5', '6', '7', '8', '9'][d]
  }

  function DigitValue(c: char): nat
    requires IsDigit(c)
  {
    (c as int) - ('0' as int)
  }

  /** The number a run of decimal digits denotes, most significant first: the reference
      reading of `Decimal`. */
  function DigitsValue(s: string): nat
    requires forall i :: 0 <= i < |s| ==> IsDigit(s[i])
    decreases |s|
  {
    if |s| == 0 then 0 else DigitsValue(s[..|s| - 1]) * 10 + DigitValue(s[|s| - 1])
  }

  /** Decimal digits of a natural number, most significant first. */
  function Decimal(n: nat): (r: string)
    ensures |r| > 0
    ensures forall i :: 0 <= i < |r| ==> IsDigit(r[i])
    ensures r[0] == '0' <==> n == 0
    decreases n
  {
    if n < 10 then [DigitChar(n)] else Decimal(n / 10) + [DigitChar(n % 10)]
  }

  /** The digits `Decimal(n)` writes denote `n`. */
  lemma {:induction false} DecimalValue(n: nat)
    ensures DigitsValue(Decimal(n)) == n
    decreases n
  {
    var d := Decimal(n);
    if n >= 10 {
      DecimalValue(n / 10);
      assert d[..|d| - 1] == Decimal(n / 10);
    } else {
      assert d[..|d| - 1] == [];
    }
  }

  /** `String(v)` for the values the relay stringifies. An integer is written in decimal
      with a leading `-` when negative. */
  function ToJsString(v: JsValue): (r: string)
    ensures v.Str? ==> r == v.s
    ensures v.Num? && v.n >= 0 ==>
      && |r| > 0 && (forall i :: 0 <= i < |r| ==> IsDigit(r[i]))
      && DigitsValue(r) == v.n
      && (r[0] == '0' <==> v.n == 0)
    ensures v.Num? && v.n < 0 ==>
      && |r| > 1 && r[0] == '-' && (forall i :: 1 <= i < |r| ==> IsDigit(r[i]))
      && DigitsValue(r[1..]) == -v.n
      && r[1] != '0'
  {
    match v
    case Undefined => "undefined"
    case Null => "null"
    case Bool(b) => if b then "true" else "false"
    case Num(n) =>
      if n < 0 then
        DecimalValue(-n);
        assert ("-" + Decimal(-n))[1..] == Decimal(-n);
        "-" + Decimal(-n)
      else
        DecimalValue(n);
        Decimal(n)
    case Str(s) => s
    case Obj => "[object Object]"
  }

  /** Different integers print differently, so numeric claims such as `user_id` give
      different userIds. */
  lemma ToJsStringNumInjective(a: int, b: int)
    ensures ToJsString(Num(a)) == ToJsString(Num(b)) ==> a == b
  {
    var sa, sb := ToJsString(Num(a)), ToJsString(Num(b));
    if sa == sb && a < 0 && b < 0 {
      assert sa[1..] == sb[1..];
    }
  }

  /** `s.slice(0, n)` for a non-negative `n`. Lengths count characters; JavaScript counts
      UTF-16 code units, which differ only for characters outside the Basic
      Multilingual Plane. */
  function Prefix(s: string, n: nat): (r: string)
    ensures |r| <= n && |r| <= |s|
    ensures r <= s
    ensures |s| <= n ==> r == s
    ensures |s| >= n ==> |r| == n
  {
    if |s| <= n then s else s[..n]
  }

  /** The characters `<`, `>`, `&`, `"` and `'` removed by the server's sanitiser. */
  predicate IsMarkup(c: char)
  {
    c == '<' || c == '>' || c == '&' || c == '"' || c == '\''
  }

  predicate MarkupFree(s: string)
  {
    forall i :: 0 <= i < |s| ==> !IsMarkup(s[i])
  }

  /** `s.replace(/[<>&"']/g, '')`: drops every markup character and keeps the others in order. */
  function StripMarkup(s: string): (r: string)
    ensures MarkupFree(r)
    ensures |r| <= |s|
    ensures forall c :: c in r <==> c in s && !IsMarkup(c)
    decreases |s|
  {
    if |s| == 0 then []
    else if IsMarkup(s[0]) then StripMarkup(s[1..])
    else [s[0]] + StripMarkup(s[1..])
  }

  /** Stripping leaves markup-free text untouched, so sanitising twice is sanitising once. */
  lemma {:induction false} StripMarkupKeepsClean(s: string)
    requires MarkupFree(s)
    ensures StripMarkup(s) == s
    decreases |s|
  {
    if |s| > 0 {
      assert !IsMarkup(s[0]);
      assert MarkupFree(s[1..]) by {
        forall i | 0 <= i < |s[1..]| ensures !IsMarkup(s[1..][i]) {
          assert s[1..][i] == s[i + 1];
        }
      }
      StripMarkupKeepsClean(s[1..]);
      assert [s[0]] + s[1..] == s;
    }
  }

  /** Stripping works character by character: a markup character vanishes, any other
      stays. */
  lemma StripMarkupChar(c: char)
    ensures StripMarkup([c]) == if IsMarkup(c) then [] else [c]
  {
    assert [c][0] == c && [c][1..] == [];
  }

  /** Stripping a concatenation strips each part in place, so the kept characters keep
      their order and their repeats. */
  lemma {:induction false} StripMarkupAppend(a: string, b: string)
    ensures StripMarkup(a + b) == StripMarkup(a) + StripMarkup(b)
    decreases |a|
  {
    if |a| > 0 {
      assert (a + b)[0] == a[0] && (a + b)[1..] == a[1..] + b;
      StripMarkupAppend(a[1..], b);
    } else {
      assert a + b == b;
    }
  }

  lemma StripMarkupFixesClean(s: string)
    ensures MarkupFree(s) ==> StripMarkup(s) == s
  {
    if MarkupFree(s) {
      StripMarkupKeepsClean(s);
    }
  }

  lemma StripMarkupIdempotent(s: string)
    ensures StripMarkup(StripMarkup(s)) == StripMarkup(s)
  {
    StripMarkupKeepsClean(StripMarkup(s));
  }

  /** A prefix of markup-free text is markup-free. */
  lemma PrefixKeepsMarkupFree(s: string, n: nat)
    requires MarkupFree(s)
    ensures MarkupFree(Prefix(s, n))
  {
    var p := Prefix(s, n);
    forall i | 0 <= i < |p| ensures !IsMarkup(p[i]) {
      assert p[i] == s[i];
    }
  }

  /** The sanitiser used by `room:create` and `user:change-name`: strip, then slice. */
  function Sanitize(s: string, limit: nat): (r: string)
    ensures |r| <= limit
    ensures MarkupFree(r)
    ensures r <= StripMarkup(s)
    ensures |r| == if |StripMarkup(s)| <= limit then |StripMarkup(s)| else limit
    ensures MarkupFree(s) && |s| <= limit ==> r == s
  {
    var stripped := StripMarkup(s);
    PrefixKeepsMarkupFree(stripped, limit);
    StripMarkupFixesClean(s);
    Prefix(stripped, limit)
  }
}
