/** The text header block of a bus message: how it is printed, and how it is read back. */
module Headers {
  import opened Wrappers
  import opened Bytes

  /** A header value: a plain string, or the list a repeated key collects. */
  datatype Value = One(text: string) | Many(items: seq<string>)

  type HeaderMap = map<string, Value>

  /** The exceptions reading a message can raise. */
  datatype ReadError =
    | BadMagic            // the lead does not start with the magic
    | BadLead             // the rest of the lead is not a frozen stream set
    | BlankLine           // a header line of blanks only
    | BadHeaderLine       // a header line whose first word lacks the colon
    | UnfinishedLine      // a header block that does not end with a newline
    | EmptyPayload        // a lead that announces no payload
    | NoMessageType       // headers without a message type
    | ListHeader          // a header that occurs twice

  function StripLeft(s: string): (r: string)
    ensures r == "" || !IsSpace(r[0])
  {
    if s != "" && IsSpace(s[0]) then StripLeft(s[1..]) else s
  }

  /** The length of the first word of `s`, which starts with it. */
  function WordLength(s: string): (n: nat)
    ensures n <= |s|
    ensures forall i | 0 <= i < n :: !IsSpace(s[i])
    ensures n < |s| ==> IsSpace(s[n])
  {
    if s == "" || IsSpace(s[0]) then 0 else 1 + WordLength(s[1..])
  }

  /** Adds one occurrence of a header; a second occurrence turns the value into a list. */
  function Append(h: HeaderMap, key: string, text: string): HeaderMap {
    if key in h then
      match h[key]
      case One(first) => h[key := Many([first, text])]
      case Many(items) => h[key := Many(items + [text])]
    else
      h[key := One(text)]
  }

  /** Reads one line, its newline removed, into the headers read so far. */
  function ReadLine(h: HeaderMap, line: string): Result<HeaderMap, ReadError> {
    var s := StripLeft(line);
    if s == "" then Err(BlankLine) else
      var n := WordLength(s);
      if s[n - 1] != ':' then Err(BadHeaderLine)
      else Ok(Append(h, s[..n - 1], StripLeft(s[n..])))
  }

  /** The complete lines of `s`, without their newlines. */
  function Lines(s: string): seq<string> {
    var i := Find(s, '\n');
    if i == |s| then [] else [s[..i]] + Lines(s[i + 1..])
  }

  /** What follows the last newline of `s`. */
  function Tail(s: string): string {
    var i := Find(s, '\n');
    if i == |s| then s else Tail(s[i + 1..])
  }

  function ReadLines(h: HeaderMap, lines: seq<string>): Result<HeaderMap, ReadError>
    decreases |lines|
  {
    if lines == [] then Ok(h) else
      match ReadLine(h, lines[0])
      case Err(e) => Err(e)
      case Ok(h') => ReadLines(h', lines[1..])
  }

  function ThenRead(r: Result<HeaderMap, ReadError>, lines: seq<string>): Result<HeaderMap, ReadError> {
    match r
    case Err(e) => Err(e)
    case Ok(h) => ReadLines(h, lines)
  }

  /** Reading a whole block at once: split it into lines, and read them in order. */
  function ReadBlock(block: string): Result<HeaderMap, ReadError> {
    match ReadLines(map[], Lines(block))
    case Err(e) => Err(e)
    case Ok(h) => if Tail(block) == "" then Ok(h) else Err(UnfinishedLine)
  }

  // ---- a block that arrives in pieces ----

  lemma FindConcat(a: string, b: string, c: char)
    ensures Find(a + b, c) == if c in a then Find(a, c) else |a| + Find(b, c)
  {
    hide Find;
    var s, i := a + b, if c in a then Find(a, c) else |a| + Find(b, c);
    assert forall k | 0 <= k < |a| :: s[k] == a[k];
    assert forall k | |a| <= k < |s| :: s[k] == b[k - |a|];
    assert forall k | 0 <= k < i :: s[k] != c;
    assert i < |s| ==> s[i] == c;
  }

  lemma FirstLine(a: string, b: string)
    requires '\n' in a
    ensures Lines(a + b) == [a[..Find(a, '\n')]] + Lines(a[Find(a, '\n') + 1..] + b)
    ensures Tail(a + b) == Tail(a[Find(a, '\n') + 1..] + b)
  {
    FindConcat(a, b, '\n');
    var i := Find(a, '\n');
    assert (a + b)[i + 1..] == a[i + 1..] + b;
    assert (a + b)[..i] == a[..i];
  }

  /** Splitting can stop anywhere and resume from the unfinished line. */
  lemma {:induction false} LinesConcat(a: string, b: string)
    ensures Lines(a + b) == Lines(a) + Lines(Tail(a) + b)
    ensures Tail(a + b) == Tail(Tail(a) + b)
    ensures '\n' !in Tail(a)
    decreases |a|
  {
    if '\n' in a {
      var i := Find(a, '\n');
      FirstLine(a, b);
      LinesConcat(a[i + 1..], b);
    }
  }

  lemma {:induction false} ReadLinesConcat(h: HeaderMap, a: seq<string>, b: seq<string>)
    ensures ReadLines(h, a + b) == ThenRead(ReadLines(h, a), b)
    decreases |a|
  {
    if a == [] {
      assert a + b == b;
    } else {
      assert (a + b)[1..] == a[1..] + b;
      match ReadLine(h, a[0])
      case Err(e) =>
      case Ok(h') => ReadLinesConcat(h', a[1..], b);
    }
  }

  lemma OneLine(line: string, rest: string)
    requires '\n' !in line
    ensures Lines(line + "\n" + rest) == [line] + Lines(rest)
    ensures Tail(line + "\n" + rest) == Tail(rest)
  {
    hide Find, Lines, Tail;
    var s := line + "\n" + rest;
    Associative(line, "\n", rest);
    FindConcat(line, "\n" + rest, '\n');
    assert Find("\n" + rest, '\n') == 0 by { assert ("\n" + rest)[0] == '\n'; }
    CutConcat(line, "\n" + rest);
    CutConcat(line + "\n", rest);
    LinesAt(s);
  }

  lemma LinesAt(s: string)
    requires '\n' in s
    ensures Lines(s) == [s[..Find(s, '\n')]] + Lines(s[Find(s, '\n') + 1..])
    ensures Tail(s) == Tail(s[Find(s, '\n') + 1..])
  {
  }

  // ---- printing ----

  function Priority(key: string): nat {
    if key == "messageType" then 0
    else if key == "messageId" then 1
    else if key == "sessionId" then 2
    else if key == "timeStamp" then 3
    else 4
  }

  /** The order in which headers are printed. */
  predicate KeyLeq(a: string, b: string) {
    Priority(a) < Priority(b) || (Priority(a) == Priority(b) && LexLeq(a, b))
  }

  lemma KeyAntisymmetric(a: string, b: string)
    requires KeyLeq(a, b) && KeyLeq(b, a)
    ensures a == b
  {
    LexAntisymmetric(a, b);
  }

  lemma KeyTransitive(a: string, b: string, c: string)
    requires KeyLeq(a, b) && KeyLeq(b, c)
    ensures KeyLeq(a, c)
  {
    if Priority(a) == Priority(b) == Priority(c) { LexTransitive(a, b, c); }
  }

  lemma {:induction false} LeastKeyExists(keys: set<string>)
    requires keys != {}
    ensures exists k :: IsLeast(keys, k)
  {
    hide KeyLeq;
    var x :| x in keys;
    KeyTotal(x, x);
    if keys == {x} {
      assert IsLeast(keys, x);
    } else {
      var rest := keys - {x};
      LeastKeyExists(rest);
      var y :| IsLeast(rest, y);
      KeyTotal(x, y);
      if KeyLeq(x, y) {
        forall k' | k' in keys ensures KeyLeq(x, k') {
          if k' != x { KeyTransitive(x, y, k'); }
        }
        assert IsLeast(keys, x);
      } else {
        assert IsLeast(keys, y);
      }
    }
  }

  predicate IsLeast(keys: set<string>, k: string) {
    k in keys && forall k' | k' in keys :: KeyLeq(k, k')
  }

  lemma KeyTotal(a: string, b: string)
    ensures KeyLeq(a, b) || KeyLeq(b, a)
  {
    LexTotal(a, b);
  }

  function LeastKey(keys: set<string>): (k: string)
    requires keys != {}
    ensures k in keys && forall k' | k' in keys :: KeyLeq(k, k')
  {
    LeastKeyExists(keys);
    assert forall a, b | KeyLeq(a, b) && KeyLeq(b, a) :: a == b by {
      forall a, b | KeyLeq(a, b) && KeyLeq(b, a) ensures a == b { KeyAntisymmetric(a, b); }
    }
    var k :| IsLeast(keys, k);
    k
  }

  /** The keys in printing order. */
  function SortKeys(keys: set<string>): (r: seq<string>)
    ensures forall k :: k in keys <==> k in r
    ensures forall i, j | 0 <= i < j < |r| :: r[i] != r[j] && KeyLeq(r[i], r[j])
  {
    if keys == {} then [] else
      var k := LeastKey(keys);
      var rest := SortKeys(keys - {k});
      assert forall k' :: k' in keys <==> k' == k || k' in rest;
      [k] + rest
  }

  function Items(v: Value): seq<string> {
    match v
    case One(text) => [text]
    case Many(items) => items
  }

  function PrintItems(key: string, items: seq<string>): string {
    if items == [] then "" else key + ": " + items[0] + "\n" + PrintItems(key, items[1..])
  }

  function PrintKeys(h: HeaderMap, keys: seq<string>): string
    requires forall k | k in keys :: k in h
  {
    if keys == [] then "" else
      PrintItems(keys[0], SortStrings(Items(h[keys[0]]))) + PrintKeys(h, keys[1..])
  }

  /** The frozen header block. */
  function Print(h: HeaderMap): string {
    PrintKeys(h, SortKeys(h.Keys))
  }

  lemma {:induction false} PrintItemsSnoc(key: string, items: seq<string>, last: string)
    ensures PrintItems(key, items + [last]) == PrintItems(key, items) + key + ": " + last + "\n"
  {
    if items == [] {
      assert items + [last] == [last];
    } else {
      PrintItemsSnoc(key, items[1..], last);
      assert (items + [last])[1..] == items[1..] + [last] && (items + [last])[0] == items[0];
      var line, rest := key + ": " + items[0] + "\n", PrintItems(key, items[1..]);
      Associative(line, rest, key);
      Associative(line, rest + key, ": ");
      Associative(line, rest + key + ": ", last);
      Associative(line, rest + key + ": " + last, "\n");
    }
  }

  lemma {:induction false} PrintKeysSnoc(h: HeaderMap, keys: seq<string>, last: string)
    requires last in h && forall k | k in keys :: k in h
    ensures PrintKeys(h, keys + [last]) ==
            PrintKeys(h, keys) + PrintItems(last, SortStrings(Items(h[last])))
  {
    hide PrintItems, SortStrings;
    if keys == [] {
      assert keys + [last] == [last];
    } else {
      PrintKeysSnoc(h, keys[1..], last);
      assert (keys + [last])[1..] == keys[1..] + [last] && (keys + [last])[0] == keys[0];
      Associative(PrintItems(keys[0], SortStrings(Items(h[keys[0]]))), PrintKeys(h, keys[1..]),
                  PrintItems(last, SortStrings(Items(h[last]))));
    }
  }

  // ---- printing and reading back ----

  predicate WordLike(key: string) {
    forall i | 0 <= i < |key| :: !IsSpace(key[i])
  }

  /** Headers that can be printed line by line: keys are words, values have no newline. */
  ghost predicate Printable(h: HeaderMap) {
    forall k | k in h :: WordLike(k) && forall t | t in Items(h[k]) :: '\n' !in t
  }

  function StripAll(items: seq<string>): (r: seq<string>)
    ensures |r| == |items|
    ensures forall i | 0 <= i < |r| :: r[i] == StripLeft(items[i])
  {
    if items == [] then [] else [StripLeft(items[0])] + StripAll(items[1..])
  }

  /** What a list of printed items becomes once read back. */
  function Collapse(items: seq<string>): Value {
    if |items| == 1 then One(items[0]) else Many(items)
  }

  function NormalValue(v: Value): Value {
    Collapse(StripAll(SortStrings(Items(v))))
  }

  /** The headers a reader gets for `h`: leading blanks gone, lists sorted, lists of one
      turned into plain strings, and empty lists dropped. */
  function Normalise(h: HeaderMap): HeaderMap {
    map k | k in h && Items(h[k]) != [] :: NormalValue(h[k])
  }

  lemma StripKeyColon(key: string, text: string)
    requires WordLike(key)
    ensures StripLeft(key + ": " + text) == key + ": " + text
    ensures WordLength(key + ": " + text) == |key| + 1
    ensures StripLeft(" " + text) == StripLeft(text)
  {
    hide WordLength;
    var s := key + ": " + text;
    KeyColonChars(key, text);
    assert StripLeft(s) == s;
    var n := WordLength(s);
    assert n > |key|;
    assert n == |key| + 1;
    assert (" " + text)[1..] == text;
  }

  lemma KeyColonChars(key: string, text: string)
    requires WordLike(key)
    ensures var s := key + ": " + text;
            (forall i | 0 <= i <= |key| :: !IsSpace(s[i])) && s[|key|] == ':' && s[|key| + 1] == ' '
  {
    var s := key + ": " + text;
    forall i | 0 <= i < |key| ensures !IsSpace(s[i]) { assert s[i] == key[i]; }
  }

  /** A printed line is read back as its key and its text without leading blanks. */
  lemma ReadPrintedLine(h: HeaderMap, key: string, text: string)
    requires WordLike(key)
    ensures ReadLine(h, key + ": " + text) == Ok(Append(h, key, StripLeft(text)))
  {
    hide StripLeft, WordLength, Append;
    StripKeyColon(key, text);
    var s := key + ": " + text;
    KeyColonChars(key, text);
    Associative(key, ": ", text);
    CutConcat(key, ": " + text);
    KeyColonRest(key, text);
  }

  lemma KeyColonRest(key: string, text: string)
    ensures (key + ": " + text)[|key| + 1..] == " " + text
  {
    CutConcat(key + ":", " " + text);
    assert key + ": " + text == (key + ":") + (" " + text);
  }

  /** The headers after `items` more occurrences of `key`. */
  function AppendAll(h: HeaderMap, key: string, items: seq<string>): HeaderMap
    decreases |items|
  {
    if items == [] then h else AppendAll(Append(h, key, items[0]), key, items[1..])
  }

  lemma {:induction false} AppendAllToList(h: HeaderMap, key: string, items: seq<string>)
    requires key in h && h[key].Many?
    ensures AppendAll(h, key, items) == h[key := Many(h[key].items + items)]
  {
    if items == [] {
      assert h[key].items + items == h[key].items;
    } else {
      var h' := Append(h, key, items[0]);
      AppendAllToList(h', key, items[1..]);
      assert h'[key].items + items[1..] == h[key].items + items;
    }
  }

  lemma AppendAllCollapses(h: HeaderMap, key: string, items: seq<string>)
    requires key !in h && items != []
    ensures AppendAll(h, key, items) == h[key := Collapse(items)]
  {
    var h' := h[key := One(items[0])];
    if |items| > 1 {
      var h'' := Append(h', key, items[1]);
      AppendAllToList(h'', key, items[1..][1..]);
      assert [items[0], items[1]] + items[1..][1..] == items;
    }
  }

  lemma {:induction false} ReadPrintedItems(h: HeaderMap, key: string, items: seq<string>, rest: string)
    requires WordLike(key) && '\n' !in key
    requires forall t | t in items :: '\n' !in t
    ensures ReadLines(h, Lines(PrintItems(key, items) + rest)) ==
            ReadLines(AppendAll(h, key, StripAll(items)), Lines(rest))
    ensures Tail(PrintItems(key, items) + rest) == Tail(rest)
    decreases |items|
  {
    if items == [] {
      assert PrintItems(key, items) + rest == rest;
    } else {
      var line := key + ": " + items[0];
      var more := PrintItems(key, items[1..]) + rest;
      assert PrintItems(key, items) + rest == line + "\n" + more;
      OneLine(line, more);
      ReadPrintedLine(h, key, items[0]);
      var ls := [line] + Lines(more);
      assert ls[0] == line && ls[1..] == Lines(more);
      ReadPrintedItems(Append(h, key, StripLeft(items[0])), key, items[1..], rest);
      assert StripAll(items)[1..] == StripAll(items[1..]);
    }
  }

  lemma SortedItemsPrintable(v: Value)
    requires forall t | t in Items(v) :: '\n' !in t
    ensures forall t | t in SortStrings(Items(v)) :: '\n' !in t
    ensures |SortStrings(Items(v))| == |Items(v)|
  {
    SortStringsSorts(Items(v));
    forall t | t in SortStrings(Items(v)) ensures '\n' !in t {
      assert t in multiset(SortStrings(Items(v)));
    }
  }

  /** The entries of `n` under `keys`. */
  ghost function Select(n: HeaderMap, keys: seq<string>): HeaderMap {
    map k | k in keys && k in n :: n[k]
  }

  lemma SelectCons(n: HeaderMap, h0: HeaderMap, keys: seq<string>)
    requires keys != [] && keys[0] !in keys[1..]
    ensures h0 + Select(n, keys) ==
            (if keys[0] in n then h0[keys[0] := n[keys[0]]] else h0) + Select(n, keys[1..])
  {
    var key, rest := keys[0], keys[1..];
    assert forall k :: k in keys <==> k == key || k in rest;
  }

  lemma SelectAll(n: HeaderMap, keys: seq<string>)
    requires forall k | k in n :: k in keys
    ensures map[] + Select(n, keys) == n
  {
  }

  lemma MapsEqual(m: HeaderMap, n: HeaderMap)
    requires m.Keys == n.Keys
    ensures m == n <==> forall k | k in m :: m[k] == n[k]
  {
  }

  lemma {:induction false} ReadPrintedKeys(h: HeaderMap, h0: HeaderMap, keys: seq<string>)
    requires Printable(h)
    requires forall k | k in keys :: k in h && k !in h0
    requires forall i, j | 0 <= i < j < |keys| :: keys[i] != keys[j]
    ensures Tail(PrintKeys(h, keys)) == ""
    ensures ReadLines(h0, Lines(PrintKeys(h, keys))) == Ok(h0 + Select(Normalise(h), keys))
    decreases |keys|
  {
    if keys == [] {
      assert h0 + Select(Normalise(h), keys) == h0;
    } else {
      var key, rest := keys[0], keys[1..];
      var items := SortStrings(Items(h[key]));
      SortedItemsPrintable(h[key]);
      WordHasNoNewline(key);
      ReadPrintedItems(h0, key, items, PrintKeys(h, rest));
      var h1 := AppendAll(h0, key, StripAll(items));
      if items != [] { AppendAllCollapses(h0, key, StripAll(items)); }
      ReadPrintedKeys(h, h1, rest);
      SelectCons(Normalise(h), h0, keys);
    }
  }

  lemma WordHasNoNewline(key: string)
    requires WordLike(key)
    ensures '\n' !in key
  {
  }

  /** Every printable header map is read back as its normal form, in one piece. */
  lemma PrintThenRead(h: HeaderMap)
    requires Printable(h)
    ensures ReadBlock(Print(h)) == Ok(Normalise(h))
  {
    var keys := SortKeys(h.Keys);
    ReadPrintedKeys(h, map[], keys);
    SelectAll(Normalise(h), keys);
  }

  predicate NoLeadingBlank(t: string) {
    t == "" || !IsSpace(t[0])
  }

  /** A value that printing and reading leaves alone. */
  ghost predicate NormalForm(v: Value) {
    && (forall t | t in Items(v) :: NoLeadingBlank(t))
    && (v.Many? ==> |v.items| >= 2 && Sorted(v.items))
  }

  lemma {:induction false} StripSuffix(t: string)
    ensures |StripLeft(t)| <= |t|
    ensures StripLeft(t) == t <==> NoLeadingBlank(t)
  {
    if t != "" && IsSpace(t[0]) { StripSuffix(t[1..]); }
  }

  lemma StripAllFixed(items: seq<string>)
    ensures StripAll(items) == items <==> forall t | t in items :: NoLeadingBlank(t)
  {
    forall i | 0 <= i < |items| ensures StripLeft(items[i]) == items[i] <==> NoLeadingBlank(items[i]) {
      StripSuffix(items[i]);
    }
    if StripAll(items) == items {
      assert forall i | 0 <= i < |items| :: StripAll(items)[i] == items[i];
    }
  }

  lemma NormalFormIsFixed(v: Value)
    requires Items(v) != []
    ensures NormalForm(v) <==> NormalValue(v) == v
  {
    hide StripAll, SortStrings, NoLeadingBlank, Sorted;
    var items := Items(v);
    var sorted := SortStrings(items);
    SortStringsSorts(items);
    SameMembers(sorted, items);
    StripAllFixed(sorted);
    AllStripped(sorted);
    if NormalForm(v) && v.Many? { SortedIsFixed(items); }
    if |items| == 1 { assert sorted[0] in items; }
  }

  lemma SameMembers(a: seq<string>, b: seq<string>)
    requires multiset(a) == multiset(b)
    ensures forall t :: t in a <==> t in b
  {
    assert forall t :: t in a <==> t in multiset(a);
    assert forall t :: t in b <==> t in multiset(b);
  }

  lemma AllStripped(items: seq<string>)
    ensures forall t | t in StripAll(items) :: NoLeadingBlank(t)
  {
  }

  /** Printing and reading gives a printable header map back exactly when it is in
      normal form: no value starts with a blank, and lists are sorted and hold at
      least two items. */
  lemma RoundTripExact(h: HeaderMap)
    requires Printable(h)
    ensures ReadBlock(Print(h)) == Ok(h) <==> forall k | k in h :: NormalForm(h[k])
  {
    PrintThenRead(h);
    var n := Normalise(h);
    forall k | k in h
      ensures NormalForm(h[k]) <==> k in n && n[k] == h[k]
    {
      if Items(h[k]) != [] { NormalFormIsFixed(h[k]); }
    }
    if n.Keys == h.Keys {
      MapsEqual(n, h);
    } else {
      assert n.Keys <= h.Keys;
      var k :| k in h && k !in n;
      assert !NormalForm(h[k]);
    }
  }

  // ---- lines and blocks that cannot be printed ones ----

  ghost predicate Blank(s: string) {
    forall i | 0 <= i < |s| :: IsSpace(s[i])
  }

  lemma {:induction false} StripBlank(a: string, s: string)
    requires Blank(a) && (s == "" || !IsSpace(s[0]))
    ensures StripLeft(a + s) == s
  {
    if a != "" {
      assert (a + s)[1..] == a[1..] + s;
      StripBlank(a[1..], s);
    } else {
      assert a + s == s;
    }
  }

  lemma FirstWord(word: string, rest: string)
    requires WordLike(word) && (rest == "" || IsSpace(rest[0]))
    ensures WordLength(word + rest) == |word|
  {
    hide WordLength;
    var s := word + rest;
    forall k | 0 <= k < |word| ensures !IsSpace(s[k]) { assert s[k] == word[k]; }
    assert rest != "" ==> s[|word|] == rest[0];
  }

  /** Every line is blank, or a first word with blanks before it, and the rest of the line
      after more blanks. A blank line raises, and so does a first word without its colon;
      else the word without the colon gets the rest of the line. */
  lemma ReadLineExactly(h: HeaderMap, a: string, word: string, b: string, text: string)
    requires Blank(a) && Blank(b) && WordLike(word)
    requires (text == "" || !IsSpace(text[0])) && (text != "" ==> b != "") && (word == "" ==> text == "")
    ensures ReadLine(h, a + (word + (b + text))) ==
            if word == "" then Err(BlankLine)
            else if word[|word| - 1] != ':' then Err(BadHeaderLine)
            else Ok(Append(h, word[..|word| - 1], text))
  {
    hide StripLeft, WordLength;
    if word == "" {
      assert a + (word + (b + text)) == (a + b) + "";
      StripBlank(a + b, "");
    } else {
      var s := word + (b + text);
      assert s[0] == word[0];
      StripBlank(a, s);
      FirstWord(word, b + text);
      CutConcat(word, b + text);
      assert s[|word| - 1] == word[|word| - 1] && s[..|word| - 1] == word[..|word| - 1];
      StripBlank(b, text);
    }
  }

  /** What one more occurrence of a header does to its value. */
  lemma AppendExactly(h: HeaderMap, key: string, text: string)
    ensures var r := Append(h, key, text);
            && r.Keys == h.Keys + {key} && key in r
            && Items(r[key]) == (if key in h then Items(h[key]) else []) + [text]
            && (r[key].One? <==> key !in h)
            && forall k | k in h && k != key :: r[k] == h[k]
  {
  }

  /** A block that does not end with a newline cannot be read. */
  lemma UnfinishedRaises(block: string)
    requires block != "" && block[|block| - 1] != '\n'
    ensures ReadBlock(block).Err?
  {
    LastCharacter(block);
  }

  lemma {:induction false} LastCharacter(s: string)
    requires s != "" && s[|s| - 1] != '\n'
    ensures Tail(s) != ""
    decreases |s|
  {
    var i := Find(s, '\n');
    if i < |s| {
      assert s[i + 1..] != "" && s[i + 1..][|s[i + 1..]| - 1] == s[|s| - 1];
      LastCharacter(s[i + 1..]);
    }
  }

  // ---- the order of the headers ----

  const FIXED := ["messageType", "messageId", "sessionId", "timeStamp"]

  /** The fixed headers that a message has, in their order. */
  function Present(keys: set<string>, fixed: seq<string>): seq<string> {
    if fixed == [] then [] else (if fixed[0] in keys then [fixed[0]] else []) + Present(keys, fixed[1..])
  }

  lemma {:induction false} LeastFirst(keys: set<string>, k: string)
    requires IsLeast(keys, k)
    ensures SortKeys(keys) == [k] + SortKeys(keys - {k})
  {
    KeyAntisymmetric(k, LeastKey(keys));
  }

  /** The headers without a fixed place. */
  ghost function Others(keys: set<string>): set<string> {
    set k | k in keys && k !in FIXED
  }

  lemma PresentAt(keys: set<string>, n: nat)
    requires n < 4
    ensures Present(keys, FIXED[n..]) == (if FIXED[n] in keys then [FIXED[n]] else []) + Present(keys, FIXED[n + 1..])
  {
    assert FIXED[n..][0] == FIXED[n] && FIXED[n..][1..] == FIXED[n + 1..];
  }

  lemma NoneFixed(keys: set<string>)
    requires forall i | 0 <= i < 4 :: FIXED[i] !in keys
    ensures Present(keys, FIXED[4..]) == [] && Others(keys) == keys
  {
    assert forall k | k in FIXED :: k !in keys;
  }

  lemma {:induction false} FixedFirst(keys: set<string>, n: nat)
    requires n <= 4 && forall i | 0 <= i < n :: FIXED[i] !in keys
    ensures SortKeys(keys) == Present(keys, FIXED[n..]) + SortKeys(Others(keys))
    decreases 4 - n
  {
    hide SortKeys, Present, IsLeast;
    if n == 4 {
      NoneFixed(keys);
      assert [] + SortKeys(keys) == SortKeys(keys);
    } else {
      var f := FIXED[n];
      PresentAt(keys, n);
      if f in keys {
        FixedIsLeast(keys, n);
        LeastFirst(keys, f);
        FixedFirst(keys - {f}, n + 1);
        SamePresent(keys, f, n + 1);
        SameOthers(keys, n);
        Associative([f], Present(keys, FIXED[n + 1..]), SortKeys(Others(keys)));
      } else {
        FixedFirst(keys, n + 1);
        assert [] + Present(keys, FIXED[n + 1..]) == Present(keys, FIXED[n + 1..]);
      }
    }
  }

  lemma SameOthers(keys: set<string>, n: nat)
    requires n < 4
    ensures Others(keys - {FIXED[n]}) == Others(keys)
  {
    assert FIXED[n] in FIXED;
  }

  lemma FixedIsLeast(keys: set<string>, n: nat)
    requires n < 4 && FIXED[n] in keys && forall i | 0 <= i < n :: FIXED[i] !in keys
    ensures IsLeast(keys, FIXED[n])
  {
    forall k | k in keys ensures KeyLeq(FIXED[n], k) {
      assert k != FIXED[0] || n == 0;
      assert k != FIXED[1] || n <= 1;
      assert k != FIXED[2] || n <= 2;
      if k == FIXED[n] { LexTotal(k, k); }
    }
  }

  lemma SamePresent(keys: set<string>, f: string, n: nat)
    requires n <= 4 && forall i | n <= i < 4 :: FIXED[i] != f
    ensures Present(keys - {f}, FIXED[n..]) == Present(keys, FIXED[n..])
    decreases 4 - n
  {
    if n < 4 {
      assert FIXED[n..][0] == FIXED[n] && FIXED[n..][1..] == FIXED[n + 1..];
      SamePresent(keys, f, n + 1);
    }
  }

  /** The headers are printed in this order: message type, message id, session id and time
      stamp, as far as there are any, and then the others in the order of their bytes. */
  lemma PrintedInOrder(keys: set<string>)
    ensures var rest := SortKeys(Others(keys));
            && SortKeys(keys) == Present(keys, FIXED) + rest
            && Sorted(rest) && forall k :: k in rest <==> k in keys && k !in FIXED
  {
    hide SortKeys, Present;
    FixedFirst(keys, 0);
    assert FIXED[0..] == FIXED;
    var others := Others(keys);
    forall i, j | 0 <= i < j < |SortKeys(others)| ensures LexLeq(SortKeys(others)[i], SortKeys(others)[j]) {
      var a, b := SortKeys(others)[i], SortKeys(others)[j];
      assert a in others && b in others;
      NotFixed(a);
      NotFixed(b);
    }
  }

  lemma NotFixed(k: string)
    requires k !in FIXED
    ensures Priority(k) == 4
  {
    assert FIXED[0] in FIXED && FIXED[1] in FIXED && FIXED[2] in FIXED && FIXED[3] in FIXED;
  }

  /** A message that has a type is printed with it in the first line. */
  lemma TypeComesFirst(h: HeaderMap)
    requires "messageType" in h && h["messageType"].One?
    ensures ("messageType: " + h["messageType"].text + "\n") <= Print(h)
  {
    hide SortStrings, SortKeys, PrintKeys, PrintItems;
    var keys, text := SortKeys(h.Keys), h["messageType"].text;
    TypeIsFirst(h.Keys);
    SortedIsFixed([text]);
    FirstPrinted(h, keys);
    OneItem("messageType", text);
    assert "messageType" + ": " == "messageType: ";
  }

  lemma TypeIsFirst(keys: set<string>)
    requires "messageType" in keys
    ensures SortKeys(keys) != [] && SortKeys(keys)[0] == "messageType"
  {
    hide SortKeys, Present;
    FixedFirst(keys, 0);
    PresentAt(keys, 0);
    assert FIXED[0] == "messageType";
  }

  lemma FirstPrinted(h: HeaderMap, keys: seq<string>)
    requires keys != [] && forall k | k in keys :: k in h
    ensures PrintItems(keys[0], SortStrings(Items(h[keys[0]]))) <= PrintKeys(h, keys)
  {
    hide PrintItems, SortStrings;
  }

  lemma OneItem(key: string, text: string)
    ensures PrintItems(key, [text]) == key + ": " + text + "\n"
  {
    assert [text][1..] == [];
    assert key + ": " + text + "\n" + "" == key + ": " + text + "\n";
  }
}
