/** The header logic of the client: the shape test and serialisation of
    request headers (`isAssoc`, `setHeaders`), the status-code scan of the
    Status-Line (`getHttpStatusCode`) and the parse of the other response
    header lines (`getResponseHeaders`). */
module HeaderCodec {
  import opened Wrappers
  import opened Strings
  import PhpArray

  /** A PHP array key: an integer or a string. */
  datatype Key = Index(n: int) | Name(text: string)

  /** The array handed to `setHeaders`, as its key/value pairs in order. */
  type HeaderArray = seq<(Key, string)>

  /** `array_keys($arr)`. */
  function KeysOf(h: HeaderArray): seq<Key> {
    seq(|h|, i requires 0 <= i < |h| => h[i].0)
  }

  /** `range($lo, $lo + n - 1)` as array keys. */
  function Range(lo: int, n: nat): (r: seq<Key>)
    ensures |r| == n && forall i :: 0 <= i < n ==> r[i] == Index(lo + i)
    decreases n
  {
    if n == 0 then [] else [Index(lo)] + Range(lo + 1, n - 1)
  }

  /** `isAssoc`: an empty array is list-like; otherwise the array is a map
      exactly when its keys are not `0, 1, ..., n-1` in this order. */
  function IsAssoc(h: HeaderArray): (assoc: bool)
    ensures assoc <==> |h| > 0 && exists i :: 0 <= i < |h| && h[i].0 != Index(i)
  {
    if h == [] then false
    else
      var keys := KeysOf(h);
      assert forall i :: 0 <= i < |h| ==> keys[i] == h[i].0;
      keys != Range(0, |h|)
  }

  /** What `setHeaders` can process without a PHP TypeError under
      `strict_types`: in a map every key is a string, in a list every
      entry has a colon (otherwise its value would be `null`). */
  predicate WellFormed(h: HeaderArray) {
    if IsAssoc(h) then forall i :: 0 <= i < |h| ==> h[i].0.Name?
    else forall i :: 0 <= i < |h| ==> ':' in h[i].1
  }

  /** The untrimmed key and value `setHeaders` hands to its closure for the
      i-th entry: a map entry as it is, a list entry split at its first colon. */
  function Entry(h: HeaderArray, i: nat): (kv: (string, string))
    requires WellFormed(h) && i < |h|
  {
    if IsAssoc(h) then (h[i].0.text, h[i].1)
    else SplitFirst(h[i].1, ':').value
  }

  /** The wire line `"$key: $value"` built from the UNTRIMMED parts. */
  function WireLine(kv: (string, string)): string {
    kv.0 + ": " + kv.1
  }

  /** The key and value as the request-header index stores them. */
  function Trimmed(kv: (string, string)): (string, string) {
    (Trim(kv.0), Trim(kv.1))
  }

  const ConnectionClose: string := "Connection: close"

  /** `opts['http']['header']` after `setHeaders(h)`: one wire line per entry,
      in input order, then the forced `Connection: close`. */
  function RequestLines(h: HeaderArray): (lines: seq<string>)
    requires WellFormed(h)
    ensures |lines| == |h| + 1 && lines[|h|] == ConnectionClose
    ensures forall i :: 0 <= i < |h| ==> lines[i] == WireLine(Entry(h, i))
  {
    seq(|h|, i requires 0 <= i < |h| => WireLine(Entry(h, i))) + [ConnectionClose]
  }

  /** `requestHeaders` after `setHeaders(h)`, starting from the index `base`
      an earlier call left: every entry stored trimmed, in order, then
      `Connection` forced to `close`. */
  function RequestIndex(base: map<string, string>, h: HeaderArray): (index: map<string, string>)
    requires WellFormed(h)
  {
    PhpArray.Store(base, IndexPairs(h))["Connection" := "close"]
  }

  function IndexPairs(h: HeaderArray): (kvs: seq<(string, string)>)
    requires WellFormed(h)
    ensures |kvs| == |h| && forall i :: 0 <= i < |h| ==> kvs[i] == Trimmed(Entry(h, i))
  {
    seq(|h|, i requires 0 <= i < |h| => Trimmed(Entry(h, i)))
  }

  /** The index always answers `close` for `Connection`, whatever the caller
      sent for it, and every key of an earlier index survives (the index
      merges while the wire lines are replaced). */
  lemma RequestIndexForcesClose(base: map<string, string>, h: HeaderArray)
    requires WellFormed(h)
    ensures "Connection" in RequestIndex(base, h) && RequestIndex(base, h)["Connection"] == "close"
    ensures base.Keys <= RequestIndex(base, h).Keys
  {
    PhpArray.StoreKeys(base, IndexPairs(h));
  }

  /** The index only adds or overwrites: its keys are exactly the old keys,
      the trimmed entry keys and `Connection`. */
  lemma RequestIndexKeys(base: map<string, string>, h: HeaderArray)
    requires WellFormed(h)
    ensures RequestIndex(base, h).Keys == base.Keys + (set i | 0 <= i < |h| :: Trim(Entry(h, i).0)) + {"Connection"}
  {
    var kvs := IndexPairs(h);
    PhpArray.StoreKeys(base, kvs);
    assert (set i | 0 <= i < |kvs| :: kvs[i].0) == (set i | 0 <= i < |h| :: Trim(Entry(h, i).0)) by {
      forall i | 0 <= i < |h| ensures kvs[i].0 == Trim(Entry(h, i).0) {
      }
    }
  }

  /** The value of a trimmed key other than `Connection` is the
      trimmed value of its LAST entry. */
  lemma RequestIndexLookup(base: map<string, string>, h: HeaderArray, i: nat)
    requires WellFormed(h) && i < |h|
    requires Trim(Entry(h, i).0) != "Connection"
    requires forall j :: i < j < |h| ==> Trim(Entry(h, j).0) != Trim(Entry(h, i).0)
    ensures var k := Trim(Entry(h, i).0);
      k in RequestIndex(base, h) && RequestIndex(base, h)[k] == Trim(Entry(h, i).1)
  {
    PhpArray.StoreLastWins(base, IndexPairs(h), i);
  }

  /** A key of the earlier index that this call does not name keeps its
      earlier value. */
  lemma RequestIndexKeepsOld(base: map<string, string>, h: HeaderArray, k: string)
    requires WellFormed(h) && k in base && k != "Connection"
    requires forall j :: 0 <= j < |h| ==> Trim(Entry(h, j).0) != k
    ensures k in RequestIndex(base, h) && RequestIndex(base, h)[k] == base[k]
  {
    PhpArray.StoreUntouched(base, IndexPairs(h), k);
  }

  /** A list entry is split at its first colon only and the wire line puts
      `": "` back between the untrimmed parts, so `"A: b"` goes out as
      `"A:  b"` and later colons stay in the value. */
  lemma ListEntryWireLine(h: HeaderArray, i: nat, key: string, value: string)
    requires WellFormed(h) && !IsAssoc(h) && i < |h|
    requires h[i].1 == key + ":" + value && ':' !in key
    ensures RequestLines(h)[i] == key + ": " + value
    ensures Entry(h, i) == (key, value)
  {
    SplitFirstJoin(key, ':', value);
  }

  /** A map and the list of its entries written `"Key:Value"` (keys without
      a colon) give the same wire lines and the same index. */
  lemma MapAndListAgree(m: HeaderArray, l: HeaderArray, base: map<string, string>)
    requires |m| == |l| && IsAssoc(m)
    requires forall i :: 0 <= i < |m| ==> m[i].0.Name? && ':' !in m[i].0.text
    requires forall i :: 0 <= i < |l| ==> l[i] == (Index(i), m[i].0.text + ":" + m[i].1)
    ensures WellFormed(m) && WellFormed(l)
    ensures RequestLines(m) == RequestLines(l)
    ensures RequestIndex(base, m) == RequestIndex(base, l)
  {
    assert !IsAssoc(l);
    forall i | 0 <= i < |l| ensures ':' in l[i].1 && SplitFirst(l[i].1, ':') == Some((m[i].0.text, m[i].1)) {
      SplitFirstJoin(m[i].0.text, ':', m[i].1);
      assert l[i].1[|m[i].0.text|] == ':';
    }
    assert WellFormed(l);
    forall i | 0 <= i < |m| ensures Entry(m, i) == Entry(l, i) {
    }
    assert IndexPairs(m) == IndexPairs(l);
  }

  /** A map and the list of its entries written `"Key: Value"` (keys without
      a colon) give the same index: the space after the colon is trimmed
      away. Their wire lines differ, since the list's value keeps it. */
  lemma MapAndSpacedListSameIndex(m: HeaderArray, l: HeaderArray, base: map<string, string>)
    requires |m| == |l| && IsAssoc(m)
    requires forall i :: 0 <= i < |m| ==> m[i].0.Name? && ':' !in m[i].0.text
    requires forall i :: 0 <= i < |l| ==> l[i] == (Index(i), m[i].0.text + ": " + m[i].1)
    ensures WellFormed(m) && WellFormed(l)
    ensures RequestIndex(base, m) == RequestIndex(base, l)
  {
    assert !IsAssoc(l);
    forall i | 0 <= i < |l| ensures ':' in l[i].1 && SplitFirst(l[i].1, ':') == Some((m[i].0.text, " " + m[i].1)) {
      var k, v := m[i].0.text, m[i].1;
      assert l[i].1 == k + [':'] + (" " + v);
      SplitFirstJoin(k, ':', " " + v);
      assert l[i].1[|k|] == ':';
    }
    assert WellFormed(l);
    forall i | 0 <= i < |m| ensures Trimmed(Entry(m, i)) == Trimmed(Entry(l, i)) {
      TrimLeadingSpace(m[i].1);
    }
    assert IndexPairs(m) == IndexPairs(l);
  }

  // ---- Status line ------------------------------------------------------

  predicate IsDigit(c: char) { '0' <= c <= '9' }

  function DigitValue(c: char): (d: int)
    requires IsDigit(c)
    ensures 0 <= d <= 9
  {
    c as int - '0' as int
  }

  /** The regular expression `\d{3}` matches at position i. */
  predicate RunAt(s: string, i: int) {
    0 <= i && i + 3 <= |s| && IsDigit(s[i]) && IsDigit(s[i + 1]) && IsDigit(s[i + 2])
  }

  /** The leftmost three-digit run at or after `from`: where the first match
      of `preg_match_all('/\d{3}/', ...)` starts. */
  function FirstRun(s: string, from: nat): (r: Option<nat>)
    ensures r.Some? ==> from <= r.value && RunAt(s, r.value)
    ensures r.Some? ==> forall j :: from <= j < r.value ==> !RunAt(s, j)
    ensures r.None? ==> forall j :: from <= j ==> !RunAt(s, j)
    decreases |s| - from
  {
    if |s| < from + 3 then None
    else if RunAt(s, from) then Some(from)
    else FirstRun(s, from + 1)
  }

  /** A run with no run before it is the one the scan finds. */
  lemma FirstRunAt(s: string, p: nat)
    requires RunAt(s, p)
    requires forall j :: 0 <= j < p ==> !RunAt(s, j)
    ensures FirstRun(s, 0) == Some(p)
  {
  }

  /** `getHttpStatusCode`: 0 without response header lines, otherwise the
      integer value of the first three-digit run of line 0 (0 when there is
      none: PHP's `(int)null`). */
  function StatusCode(lines: seq<string>): (code: int)
    ensures 0 <= code <= 999
    ensures lines == [] ==> code == 0
  {
    if lines == [] then 0
    else match FirstRun(lines[0], 0)
      case None => 0
      case Some(i) =>
        var s := lines[0];
        100 * DigitValue(s[i]) + 10 * DigitValue(s[i + 1]) + DigitValue(s[i + 2])
  }

  /** For a Status-Line of section 6.1 of RFC 1945,
      `"HTTP/" major "." minor SP Status-Code SP Reason-Phrase`, with one-digit
      version numbers, the scan returns the three-digit Status-Code. */
  lemma StatusLineCode(major: char, minor: char, code: string, reason: string, rest: seq<string>)
    requires IsDigit(major) && IsDigit(minor)
    requires |code| == 3 && IsDigit(code[0]) && IsDigit(code[1]) && IsDigit(code[2])
    ensures var line := "HTTP/" + [major] + "." + [minor] + " " + code + " " + reason;
      StatusCode([line] + rest) == 100 * DigitValue(code[0]) + 10 * DigitValue(code[1]) + DigitValue(code[2])
  {
    var prefix := "HTTP/" + [major] + "." + [minor] + " ";
    var line := prefix + code + " " + reason;
    assert line == "HTTP/" + [major] + "." + [minor] + " " + code + " " + reason;
    assert |prefix| == 9;
    assert forall k :: 0 <= k < 9 ==> line[k] == prefix[k];
    assert line[9] == code[0] && line[10] == code[1] && line[11] == code[2];
    assert !IsDigit(line[6]) && !IsDigit(line[8]);
    FirstRunAt(line, 9);
  }

  /** For any response, the code is the value of the leftmost three-digit
      run of line 0, with or without a reason phrase after it. */
  lemma StatusCodeValue(lines: seq<string>, p: nat)
    requires lines != [] && RunAt(lines[0], p)
    requires forall j :: 0 <= j < p ==> !RunAt(lines[0], j)
    ensures StatusCode(lines) == 100 * DigitValue(lines[0][p]) + 10 * DigitValue(lines[0][p + 1]) + DigitValue(lines[0][p + 2])
  {
    FirstRunAt(lines[0], p);
  }

  /** A line 0 without three consecutive digits gives 0 (PHP's cast of the
      missing match). */
  lemma StatusCodeNoRun(lines: seq<string>)
    requires lines != [] && forall j :: 0 <= j ==> !RunAt(lines[0], j)
    ensures StatusCode(lines) == 0
  {
    assert FirstRun(lines[0], 0).None?;
  }

  /** The example of RFC 1945: `"HTTP/1.0 404 Not Found"` gives 404. */
  lemma NotFoundIs404()
    ensures StatusCode(["HTTP/1.0 404 Not Found"]) == 404
  {
    StatusLineCode('1', '0', "404", "Not Found", []);
    assert "HTTP/1.0 404 Not Found" == "HTTP/" + ['1'] + "." + ['0'] + " " + "404" + " " + "Not Found";
  }

  // ---- Response header lines ---------------------------------------------

  /** One line of `getResponseHeaders`, as its result is meant: the key is
      the lower-cased, untrimmed text before the first colon, the value the
      trimmed text after it, later colons kept. A line without a colon
      gives the whole line lower-cased and the empty value, where the source
      warns and then throws a TypeError (see `ExplodedLine`). */
  function ResponseLine(line: string): (string, string) {
    match Find(line, ':')
    case Some(i) => (ToLower(line[..i]), Trim(line[i + 1..]))
    case None => (ToLower(line), "")
  }

  /** The same line as the source computes it: explode at every colon,
      shift off the first piece and lower-case it as the key; with more than
      one piece left, implode them with colons and trim; with one, trim it.
      With none (a line without a colon) the source warns about the
      undefined index and then throws a TypeError, since under
      `strict_types` `trim` refuses `null`; this model gives the empty value
      instead. Whatever the line, the result is the first-colon split. */
  function ExplodedLine(line: string): (kv: (string, string))
    ensures kv == ResponseLine(line)
  {
    var parts := Explode(line, ':');
    var rest := parts[1..];
    ExplodeFirst(line, ':');
    (ToLower(parts[0]),
     if |rest| > 1 then Trim(Implode(rest, ':'))
     else if |rest| == 1 then Trim(rest[0])
     else "")
  }

  /** The pairs `getResponseHeaders` assigns, one per line after line 0. */
  function ResponsePairs(lines: seq<string>): (kvs: seq<(string, string)>)
    ensures |kvs| == if |lines| <= 1 then 0 else |lines| - 1
    ensures forall j :: 0 <= j < |kvs| ==> kvs[j] == ResponseLine(lines[j + 1])
  {
    seq(if |lines| <= 1 then 0 else |lines| - 1, j requires 0 <= j < |lines| - 1 => ResponseLine(lines[j + 1]))
  }

  /** `getResponseHeaders`: line 0 ignored, every later line assigned in
      order, a later duplicate key overwriting an earlier one. */
  function ResponseHeaderMap(lines: seq<string>): map<string, string> {
    PhpArray.Store(map[], ResponsePairs(lines))
  }

  /** Line 0 never contributes, and every key comes from some later line. */
  lemma ResponseHeaderKeys(lines: seq<string>)
    ensures ResponseHeaderMap(lines).Keys == set j | 1 <= j < |lines| :: ResponseLine(lines[j]).0
  {
    var kvs := ResponsePairs(lines);
    PhpArray.StoreKeys(map[], kvs);
    var a := set j | 0 <= j < |kvs| :: kvs[j].0;
    var b := set j | 1 <= j < |lines| :: ResponseLine(lines[j]).0;
    forall k | k in a ensures k in b {
      var j :| 0 <= j < |kvs| && kvs[j].0 == k;
      assert ResponseLine(lines[j + 1]).0 == k;
    }
    forall k | k in b ensures k in a {
      var j :| 1 <= j < |lines| && ResponseLine(lines[j]).0 == k;
      assert kvs[j - 1].0 == k;
    }
  }

  /** The value of a key is the value of the last line (after line 0) that
      carries that key. */
  lemma ResponseHeaderLastWins(lines: seq<string>, j: nat)
    requires 1 <= j < |lines|
    requires forall k :: j < k < |lines| ==> ResponseLine(lines[k]).0 != ResponseLine(lines[j]).0
    ensures var kv := ResponseLine(lines[j]);
      kv.0 in ResponseHeaderMap(lines) && ResponseHeaderMap(lines)[kv.0] == kv.1
  {
    var kvs := ResponsePairs(lines);
    assert kvs[j - 1] == ResponseLine(lines[j]);
    forall k | j - 1 < k < |kvs| ensures kvs[k].0 != kvs[j - 1].0 {
      assert kvs[k] == ResponseLine(lines[k + 1]);
    }
    PhpArray.StoreLastWins(map[], kvs, j - 1);
  }

  /** Reading back a wire line as `setHeaders` writes it: a key without a
      colon and a value with no padding come back as the lower-cased key
      and the value unchanged, whatever colons the value holds. */
  lemma ResponseLineOfWire(key: string, value: string)
    requires ':' !in key
    requires value == [] || (!IsTrimChar(value[0]) && !IsTrimChar(value[|value| - 1]))
    ensures ResponseLine(WireLine((key, value))) == (ToLower(key), value)
  {
    var l := WireLine((key, value));
    assert l[..|key|] == key;
    assert l[|key|] == ':';
    assert l[|key| + 1..] == " " + value + "";
    FindFirst(l, ':', |key|);
    TrimPadding(" ", value, "");
  }

  /** Colons inside a value survive and keys are lower-cased:
      `ETag: x` and `Link: a:b` after the Status-Line give `etag` and
      `link`. */
  lemma ResponseHeadersExample()
    ensures ResponseHeaderMap(["HTTP/1.0 200 OK", "ETag: x", "Link: a:b"])
      == map["etag" := "x", "link" := "a:b"]
  {
    ETagLine();
    LinkLine();
    TwoHeaderLines(["HTTP/1.0 200 OK", "ETag: x", "Link: a:b"], "etag", "x", "link", "a:b");
  }

  /** The first header line of the example; the key is lower-cased. */
  lemma ETagLine()
    ensures ResponseLine("ETag: x") == ("etag", "x")
  {
    var l := "ETag: x";
    assert l[..4] == "ETag" && l[5..] == " " + "x" + "";
    TrimPadding(" ", "x", "");
    ResponseLineAt(l, 4, "etag", "x");
  }

  /** The second header line of the example; the colon in the value stays. */
  lemma LinkLine()
    ensures ResponseLine("Link: a:b") == ("link", "a:b")
  {
    var l := "Link: a:b";
    assert l[..4] == "Link" && l[5..] == " " + "a:b" + "";
    TrimPadding(" ", "a:b", "");
    ResponseLineAt(l, 4, "link", "a:b");
  }

  /** A line whose first colon is at `i` reads as the text around it. */
  lemma ResponseLineAt(line: string, i: nat, key: string, value: string)
    requires i < |line| && line[i] == ':' && ':' !in line[..i]
    requires ToLower(line[..i]) == key && Trim(line[i + 1..]) == value
    ensures ResponseLine(line) == (key, value)
  {
    FindFirst(line, ':', i);
  }

  lemma TwoHeaderLines(lines: seq<string>, k1: string, v1: string, k2: string, v2: string)
    requires |lines| == 3 && ResponseLine(lines[1]) == (k1, v1) && ResponseLine(lines[2]) == (k2, v2)
    ensures ResponseHeaderMap(lines) == map[k1 := v1, k2 := v2]
  {
    var kvs := ResponsePairs(lines);
    assert kvs == [(k1, v1)] + [(k2, v2)];
    PhpArray.StoreSnoc(map[], [], (k1, v1));
    PhpArray.StoreSnoc(map[], [(k1, v1)], (k2, v2));
    assert [] + [(k1, v1)] == [(k1, v1)];
  }
}
