/**
 * The required-field check of the trade form (`create_trade`).
 *
 * The form is the submitted field-name to value map. The symbol is read with a
 * default of "", stripped of surrounding whitespace and upper-cased; the other
 * four fields are read as they are and may be absent. The trade is rejected
 * when any of the five values is empty or absent; otherwise the values are
 * passed on to the insert.
 */
module TradeForm {
  import opened Wrappers

  type Form = map<string, string>

  /** The values the insert receives. */
  datatype TradeInput = TradeInput(
    symbol: string, positionSize: string, entryPrice: string, exitPrice: string, tradeDate: string)

  /** Why a submission is refused: the "All fields are required." message. */
  datatype FormError = MissingField

  // ---------------------------------------------------------------------------
  // `str.strip()`

  /** The characters Python's `str.isspace` accepts, which `strip()` removes. */
  predicate IsWhitespace(c: char) {
    var n := c as int;
    || n == 0x20 || 0x09 <= n <= 0x0D || 0x1C <= n <= 0x1F || n == 0x85 || n == 0xA0
    || n == 0x1680 || 0x2000 <= n <= 0x200A || n == 0x2028 || n == 0x2029
    || n == 0x202F || n == 0x205F || n == 0x3000
  }

  predicate AllWhitespace(s: string) {
    forall i :: 0 <= i < |s| ==> IsWhitespace(s[i])
  }

  /** `s.lstrip()` */
  function TrimStart(s: string): string {
    if |s| > 0 && IsWhitespace(s[0]) then TrimStart(s[1..]) else s
  }

  /** `s.rstrip()` */
  function TrimEnd(s: string): string {
    if |s| > 0 && IsWhitespace(s[|s| - 1]) then TrimEnd(s[..|s| - 1]) else s
  }

  /** `s.strip()` */
  function Strip(s: string): string {
    TrimEnd(TrimStart(s))
  }

  /** `lstrip` removes a whitespace prefix and leaves a string that starts with
      something else. */
  lemma {:induction false} TrimStartSpec(s: string)
    ensures var r := TrimStart(s);
      && |r| <= |s| && r == s[|s| - |r|..]
      && AllWhitespace(s[..|s| - |r|])
      && (|r| > 0 ==> !IsWhitespace(r[0]))
  {
    if |s| > 0 && IsWhitespace(s[0]) {
      TrimStartSpec(s[1..]);
      var r := TrimStart(s[1..]);
      assert s[..|s| - |r|] == [s[0]] + s[1..][..|s| - 1 - |r|];
    }
  }

  /** `rstrip` removes a whitespace suffix and leaves a string that ends with
      something else. */
  lemma {:induction false} TrimEndSpec(s: string)
    ensures var r := TrimEnd(s);
      && |r| <= |s| && r == s[..|r|]
      && AllWhitespace(s[|r|..])
      && (|r| > 0 ==> !IsWhitespace(r[|r| - 1]))
  {
    if |s| > 0 && IsWhitespace(s[|s| - 1]) {
      var t := s[..|s| - 1];
      TrimEndSpec(t);
      var r := TrimEnd(t);
      assert s[|r|..] == t[|r|..] + [s[|s| - 1]];
    }
  }

  /** `strip` cuts `s` into whitespace, the result, and whitespace, and the
      result neither starts nor ends with whitespace. */
  lemma StripSpec(s: string)
    ensures var r := Strip(s);
      && (exists i, j :: 0 <= i <= j <= |s| && r == s[i..j] && AllWhitespace(s[..i]) && AllWhitespace(s[j..]))
      && (|r| > 0 ==> !IsWhitespace(r[0]) && !IsWhitespace(r[|r| - 1]))
  {
    var t := TrimStart(s);
    TrimStartSpec(s);
    TrimEndSpec(t);
    var r := TrimEnd(t);
    var i := |s| - |t|;
    var j := i + |r|;
    assert r == s[i..j];
    assert s[j..] == t[|r|..];
  }

  /** Stripping twice is stripping once. */
  lemma StripIdempotent(s: string)
    ensures Strip(Strip(s)) == Strip(s)
  {
    var r := Strip(s);
    StripSpec(s);
    if |r| > 0 {
      assert TrimStart(r) == r;
      assert TrimEnd(r) == r;
    }
  }

  /** The stripped string is empty exactly when `s` is all whitespace. */
  lemma StripEmpty(s: string)
    ensures Strip(s) == [] <==> AllWhitespace(s)
  {
    StripSpec(s);
    var t := TrimStart(s);
    TrimStartSpec(s);
    if AllWhitespace(s) {
      AllWhitespaceTrimStart(s);
    }
    if Strip(s) == [] {
      TrimEndSpec(t);
      assert s == s[..|s| - |t|] + t;
    }
  }

  lemma {:induction false} AllWhitespaceTrimStart(s: string)
    requires AllWhitespace(s)
    ensures TrimStart(s) == []
  {
    if |s| > 0 {
      AllWhitespaceTrimStart(s[1..]);
    }
  }

  // ---------------------------------------------------------------------------
  // `str.upper()`

  predicate IsLowerAscii(c: char) {
    'a' <= c <= 'z'
  }

  function UpperChar(c: char): (u: char)
    ensures IsLowerAscii(c) ==> u as int == c as int - 32
    ensures !IsLowerAscii(c) ==> u == c
  {
    if IsLowerAscii(c) then (c as int - 32) as char else c
  }

  /** `s.upper()`, on the ASCII letters. */
  function Upper(s: string): (r: string)
  {
    seq(|s|, i requires 0 <= i < |s| => UpperChar(s[i]))
  }

  /** Upper-casing keeps the length, changes only `a`..`z`, and leaves no ASCII
      lower-case letter; doing it twice changes nothing more. */
  lemma UpperSpec(s: string)
    ensures |Upper(s)| == |s|
    ensures forall i :: 0 <= i < |s| ==> Upper(s)[i] == UpperChar(s[i])
    ensures forall i :: 0 <= i < |s| ==> !IsLowerAscii(Upper(s)[i])
    ensures forall i :: 0 <= i < |s| ==> !IsLowerAscii(s[i]) ==> Upper(s)[i] == s[i]
    ensures Upper(Upper(s)) == Upper(s)
  {
  }

  /** Upper-casing keeps whitespace at the ends where it was and keeps other
      characters other, so an upper-cased stripped string is still stripped. */
  lemma UpperKeepsStripped(s: string)
    ensures var r := Upper(Strip(s));
      |r| > 0 ==> !IsWhitespace(r[0]) && !IsWhitespace(r[|r| - 1])
  {
    StripSpec(s);
    var t := Strip(s);
    if |t| > 0 {
      assert Upper(t)[0] == UpperChar(t[0]);
      assert Upper(t)[|t| - 1] == UpperChar(t[|t| - 1]);
    }
  }

  // ---------------------------------------------------------------------------
  // The check

  /** `request.form.get("symbol", "").strip().upper()` */
  function NormalizedSymbol(form: Form): string {
    Upper(Strip(if "symbol" in form then form["symbol"] else ""))
  }

  /** Python truthiness of a field value: present and not the empty string. */
  predicate Filled(v: Option<string>) {
    v.Some? && v.value != ""
  }

  /** The check in `create_trade`: the values for the insert, or the refusal. */
  function CheckTrade(form: Form): (r: Result<TradeInput, FormError>)
  {
    var symbol := NormalizedSymbol(form);
    var positionSize := Get(form, "position_size");
    var entryPrice := Get(form, "entry_price");
    var exitPrice := Get(form, "exit_price");
    var tradeDate := Get(form, "trade_date");
    if symbol != "" && Filled(positionSize) && Filled(entryPrice) && Filled(exitPrice) && Filled(tradeDate)
    then Success(TradeInput(symbol, positionSize.value, entryPrice.value, exitPrice.value, tradeDate.value))
    else Failure(MissingField)
  }

  /** The form is a required field short when the symbol is absent or only
      whitespace, or any other field is absent or empty. */
  predicate MissingAny(form: Form) {
    || "symbol" !in form || AllWhitespace(form["symbol"])
    || exists name :: name in ["position_size", "entry_price", "exit_price", "trade_date"]
         && (name !in form || form[name] == "")
  }

  /** A submission is refused exactly when a required field is missing, and an
      accepted one passes the four other fields on untouched and the symbol
      normalized. */
  lemma CheckTradeSpec(form: Form)
    ensures CheckTrade(form).Failure? <==> MissingAny(form)
    ensures CheckTrade(form).Failure? ==> CheckTrade(form).error == MissingField
    ensures CheckTrade(form).Success? ==>
              CheckTrade(form).value
              == TradeInput(NormalizedSymbol(form), form["position_size"], form["entry_price"],
                            form["exit_price"], form["trade_date"])
  {
    var raw := if "symbol" in form then form["symbol"] else "";
    StripEmpty(raw);
    UpperSpec(Strip(raw));
    if "symbol" !in form {
      assert raw == "";
    }
    if MissingAny(form) && "symbol" in form && !AllWhitespace(form["symbol"]) {
      var name :| name in ["position_size", "entry_price", "exit_price", "trade_date"]
        && (name !in form || form[name] == "");
      assert !Filled(Get(form, name));
    }
  }

  /** An accepted symbol is non-empty, has no surrounding whitespace and no ASCII
      lower-case letter. */
  lemma AcceptedSymbol(form: Form)
    requires CheckTrade(form).Success?
    ensures var s := CheckTrade(form).value.symbol;
      && |s| > 0
      && !IsWhitespace(s[0]) && !IsWhitespace(s[|s| - 1])
      && forall i :: 0 <= i < |s| ==> !IsLowerAscii(s[i])
  {
    var raw := if "symbol" in form then form["symbol"] else "";
    UpperKeepsStripped(raw);
    UpperSpec(Strip(raw));
  }

  /** Normalizing an accepted symbol again changes nothing. */
  lemma NormalizedSymbolIdempotent(form: Form)
    ensures var s := NormalizedSymbol(form);
      NormalizedSymbol(form["symbol" := s]) == s
  {
    var raw := if "symbol" in form then form["symbol"] else "";
    var t := Strip(raw);
    var s := Upper(t);
    UpperSpec(t);
    StripSpec(raw);
    UpperKeepsStripped(raw);
    assert form["symbol" := s]["symbol"] == s;
    if |s| > 0 {
      assert TrimStart(s) == s;
      assert TrimEnd(s) == s;
    }
    assert Strip(s) == s;
  }
}
