/**
 * The pure parts of MainActivity's JavaScript bridge: stripping the JSON
 * quotes around values read from the web view, the rules that decide what
 * is written to the settings store, and the latest-price lookup with its
 * field fallbacks and "0" on failure. A value handed to a bridge callback
 * is the JSON rendering of the JavaScript result (None models Java null).
 */
module Bridge {
  import opened Base
  import opened Doubles
  import opened Prefs

  // ---------------------------------------------------------------------------
  // trimQuotes

  /** The JSON rendering of a string with no characters to escape. */
  function Quote(s: string): string {
    "\"" + s + "\""
  }

  /**
   * `trimQuotes`: null becomes "", a value of length two or more that starts
   * and ends with a double quote loses exactly those two characters, and
   * anything else (a lone quote included) is returned unchanged.
   */
  function TrimQuotes(s: Option<string>): (r: string)
    ensures s.None? ==> r == ""
    ensures s.Some? ==> r == s.value || Quote(r) == s.value
    ensures s.Some? && r != s.value ==> |s.value| >= 2 && s.value[0] == '"' && s.value[|s.value| - 1] == '"'
  {
    match s
    case None => ""
    case Some(t) =>
      if |t| >= 2 && t[0] == '"' && t[|t| - 1] == '"' then t[1..|t| - 1] else t
  }

  /** Removing the quotes undoes the JSON rendering of a string. */
  lemma TrimQuotesUndoesQuote(s: string)
    ensures TrimQuotes(Some(Quote(s))) == s
  {
    var q := Quote(s);
    assert q[1..|q| - 1] == s;
  }

  /** A lone double quote is not stripped. */
  lemma LoneQuoteKept()
    ensures TrimQuotes(Some("\"")) == "\""
  {
  }

  // ---------------------------------------------------------------------------
  // What the settings capture writes

  function LowerAscii(c: char): char {
    if 'A' <= c <= 'Z' then ((c as int) + 32) as char else c
  }

  /** `"null".equalsIgnoreCase(s)`. */
  predicate IsNullWord(s: string) {
    |s| == 4 && LowerAscii(s[0]) == 'n' && LowerAscii(s[1]) == 'u' && LowerAscii(s[2]) == 'l' && LowerAscii(s[3]) == 'l'
  }

  /** The cleaned values `captureKey` refuses to store. */
  predicate Skipped(val: Option<string>) {
    val.None? || TrimQuotes(val) == "" || IsNullWord(TrimQuotes(val))
  }

  /** The store equals `st` except possibly at `key`. */
  ghost predicate SameExceptAt(r: Store, st: Store, key: string) {
    forall k :: k != key ==> (k in r <==> k in st) && (k in r ==> r[k] == st[k])
  }

  /**
   * `captureKey(localKey, prefKey)`: a null, empty or "null" (any case)
   * value writes nothing; `smaPeriod` is parsed as an int, the buy and sell
   * thresholds as floats (`parseFloat` is `Float.parseFloat`, None when it
   * throws), and a value that does not parse writes nothing; every other key
   * is stored as the cleaned string.
   */
  function CaptureKey(st: Store, prefKey: string, val: Option<string>, parseFloat: string -> Option<Double>): (r: Store)
    ensures SameExceptAt(r, st, prefKey)
    ensures Skipped(val) ==> r == st
    ensures !Skipped(val) && prefKey == KeySma ==>
      var n := ParseInt(TrimQuotes(val));
      (n.Some? ==> KeySma in r && r[KeySma] == PInt(n.value)) && (n.None? ==> r == st)
    ensures !Skipped(val) && (prefKey == KeyBuy || prefKey == KeySell) ==>
      var f := parseFloat(TrimQuotes(val));
      (f.Some? ==> prefKey in r && r[prefKey] == PFloat(f.value)) && (f.None? ==> r == st)
    ensures !Skipped(val) && prefKey != KeySma && prefKey != KeyBuy && prefKey != KeySell ==>
      prefKey in r && r[prefKey] == PString(TrimQuotes(val))
  {
    if val.None? then st
    else
      var clean := TrimQuotes(val);
      if clean == "" || IsNullWord(clean) then st
      else if prefKey == KeySma then
        match ParseInt(clean)
        case Some(n) => st[KeySma := PInt(n)]
        case None => st
      else if prefKey == KeyBuy || prefKey == KeySell then
        match parseFloat(clean)
        case Some(f) => st[prefKey := PFloat(f)]
        case None => st
      else st[prefKey := PString(clean)]
  }

  /** An SMA period typed into the web app reaches the store as the same int, whatever default the reader uses. */
  lemma CapturedPeriodReadsBack(st: Store, n: Int32, parseFloat: string -> Option<Double>, default: Int32)
    ensures GetInt(CaptureKey(st, KeySma, Some(Quote(ShowInt(n))), parseFloat), KeySma, default) == Value(n)
  {
    TrimQuotesUndoesQuote(ShowInt(n));
    ParseShowRoundTrip(n);
    var s := ShowInt(n);
    assert s[0] == '-' || IsDigit(s[0]);
  }

  /** localStorage holding nothing reaches the callback as the JSON text null, which is skipped. */
  lemma MissingItemWritesNothing(st: Store, prefKey: string, parseFloat: string -> Option<Double>)
    ensures CaptureKey(st, prefKey, Some("null"), parseFloat) == st
    ensures CaptureKey(st, prefKey, Some("\"NULL\""), parseFloat) == st
  {
    assert TrimQuotes(Some("\"NULL\"")) == "NULL";
  }

  /**
   * `updateApiKey`: a non-null value always writes the key, the cleaned
   * value when it is non-empty and the empty string ("clear") otherwise.
   */
  function UpdateApiKey(st: Store, val: Option<string>): (r: Store)
    ensures SameExceptAt(r, st, KeyApi)
    ensures val.None? ==> r == st
    ensures val.Some? ==> KeyApi in r && r[KeyApi] == PString(TrimQuotes(val))
  {
    if val.None? then st
    else
      var clean := TrimQuotes(val);
      if clean != "" then st[KeyApi := PString(clean)]
      else st[KeyApi := PString("")]
  }

  /** The API key capture of `onCreate` and `rescheduleNotifications`: only a non-empty cleaned value is written. */
  function CaptureApiKey(st: Store, val: Option<string>): (r: Store)
    ensures SameExceptAt(r, st, KeyApi)
    ensures val.None? || TrimQuotes(val) == "" ==> r == st
    ensures val.Some? && TrimQuotes(val) != "" ==> KeyApi in r && r[KeyApi] == PString(TrimQuotes(val))
  {
    if val.None? then st
    else
      var clean := TrimQuotes(val);
      if !(|clean| == 0) then st[KeyApi := PString(clean)] else st
  }

  /** The two API key writers differ only on an empty value: update clears the key, capture keeps the old one. */
  lemma ApiKeyWritersAgreeOnNonEmpty(st: Store, val: Option<string>)
    ensures val.Some? && TrimQuotes(val) != "" ==> UpdateApiKey(st, val) == CaptureApiKey(st, val)
    ensures val.Some? && TrimQuotes(val) == "" ==>
      GetString(UpdateApiKey(st, val), KeyApi, "x") == Value("") && CaptureApiKey(st, val) == st
  {
  }

  /** The `notifHour` / `notifMinute` capture: `Integer.parseInt(trimQuotes(val))`, ignoring a failure. */
  function CaptureIntSetting(st: Store, key: string, val: Option<string>): (r: Store)
    ensures SameExceptAt(r, st, key)
    ensures ParseInt(TrimQuotes(val)).None? ==> r == st
    ensures ParseInt(TrimQuotes(val)).Some? ==> key in r && r[key] == PInt(ParseInt(TrimQuotes(val)).value)
  {
    match ParseInt(TrimQuotes(val))
    case Some(n) => st[key := PInt(n)]
    case None => st
  }

  /** A null value or the JSON text null leaves the stored time alone. */
  lemma NullTimeIgnored(st: Store, key: string)
    ensures CaptureIntSetting(st, key, None) == st
    ensures CaptureIntSetting(st, key, Some("null")) == st
  {
  }

  /** The frequency capture of `rescheduleNotifications`: any non-null value is stored, the text null included. */
  function CaptureFrequency(st: Store, val: Option<string>): (r: Store)
    ensures SameExceptAt(r, st, KeyNotifFrequency)
    ensures val.None? ==> r == st
    ensures val.Some? ==> KeyNotifFrequency in r && r[KeyNotifFrequency] == PString(TrimQuotes(val))
  {
    if val.None? then st else st[KeyNotifFrequency := PString(TrimQuotes(val))]
  }

  // ---------------------------------------------------------------------------
  // Latest price

  /** A field of the quote's `meta` object: missing, a number, or present but not a number (getDouble throws). */
  datatype Field = Absent | Number(v: real) | NotNumber

  datatype Meta = Meta(regularMarketPrice: Field, previousClose: Field, chartPreviousClose: Field)

  /** An element of `chart.result`: not an object (getJSONObject throws), or an object with an optional `meta`. */
  datatype ResultItem = NotAnObject | Item(meta: Option<Meta>)

  /** `chart` with its optional `result` array. */
  datatype Chart = Chart(result: Option<seq<ResultItem>>)

  /** What the quote endpoint yields: an I/O failure, or a status and the body parsed as a JSON object holding an optional `chart` (None if it does not parse). */
  datatype QuoteReply = QuoteIoFailure | QuoteReply(status: int, doc: Option<Option<Chart>>)

  /** The `meta` object the code reaches, if every step on the way succeeds. */
  function ReachedMeta(reply: QuoteReply): Option<Meta> {
    if !reply.QuoteReply? || reply.status != 200 || reply.doc.None? || reply.doc.value.None? then None
    else
      var chart := reply.doc.value.value;
      if chart.result.None? || |chart.result.value| == 0 || chart.result.value[0].NotAnObject? then None
      else chart.result.value[0].meta
  }

  /** The key-presence chain: regularMarketPrice if present, else previousClose, else chartPreviousClose. */
  function ChosenField(m: Meta): (f: Field)
    ensures f != Absent ==> f == m.regularMarketPrice || f == m.previousClose || f == m.chartPreviousClose
    ensures m.regularMarketPrice != Absent ==> f == m.regularMarketPrice
    ensures m.regularMarketPrice == Absent && m.previousClose != Absent ==> f == m.previousClose
    ensures m.regularMarketPrice == Absent && m.previousClose == Absent ==> f == m.chartPreviousClose
  {
    if m.regularMarketPrice != Absent then m.regularMarketPrice
    else if m.previousClose != Absent then m.previousClose
    else m.chartPreviousClose
  }

  /**
   * `fetchLatestPrice`: 0.0 on any failure (I/O, non-200 status, unparsable
   * body, missing chart, result or meta, a non-number field) and for a
   * non-positive price; otherwise the chosen field's value.
   */
  function FetchLatestPrice(reply: QuoteReply): (p: real)
    ensures p == 0.0 || p > 0.0
    ensures p > 0.0 <==> ReachedMeta(reply).Some? && ChosenField(ReachedMeta(reply).value).Number? && ChosenField(ReachedMeta(reply).value).v > 0.0
    ensures p > 0.0 ==> ChosenField(ReachedMeta(reply).value) == Number(p)
  {
    match reply
    case QuoteIoFailure => 0.0
    case QuoteReply(status, doc) =>
      if status != 200 then 0.0
      else if doc.None? then 0.0
      else if doc.value.None? then 0.0
      else
        var result := doc.value.value.result;
        if result.None? || |result.value| == 0 then 0.0
        else if result.value[0].NotAnObject? then 0.0
        else if result.value[0].meta.None? then 0.0
        else
          var price := match ChosenField(result.value[0].meta.value)
            case Number(v) => v
            case Absent => 0.0
            case NotNumber => 0.0;
          if price <= 0.0 then 0.0 else price
  }

  /** A present but non-positive regularMarketPrice gives 0.0 even when a fallback field holds a good price. */
  lemma NonPositiveRegularPriceDoesNotFallThrough(reply: QuoteReply, v: real)
    requires ReachedMeta(reply).Some?
    requires ReachedMeta(reply).value.regularMarketPrice == Number(v) && v <= 0.0
    ensures FetchLatestPrice(reply) == 0.0
  {
  }

  /** The result of `getLatestPrice`: the text "0", or `String.valueOf(price)` of a positive price. */
  datatype LatestPrice = ZeroText | PriceText(price: real)

  function QuoteUrl(symbol: string): string {
    "https://query1.finance.yahoo.com/v8/finance/chart/" + symbol + "?interval=1d&range=1d"
  }

  /** `getLatestPrice(symbol)`; `quotes` is the quote endpoint's answer for each URL. */
  function GetLatestPrice(symbol: Option<string>, quotes: string -> QuoteReply): (r: LatestPrice)
    ensures symbol.None? || symbol.value == "" ==> r == ZeroText
    ensures r.PriceText? ==>
      symbol.Some? && r.price > 0.0 && r.price == FetchLatestPrice(quotes(QuoteUrl(symbol.value)))
    ensures symbol.Some? && symbol.value != "" && FetchLatestPrice(quotes(QuoteUrl(symbol.value))) > 0.0 ==> r.PriceText?
  {
    if symbol.None? || symbol.value == "" then ZeroText
    else
      var price := FetchLatestPrice(quotes(QuoteUrl(symbol.value)));
      if price <= 0.0 then ZeroText else PriceText(price)
  }
}
