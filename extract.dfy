/** What `UnmarshalJSON` computes from a decoded document: the time, message and level
    searches with their callbacks, and the display strings of the remaining entries. */
module Extract {
  import opened Wrappers
  import opened Json
  import opened FieldLocator
  import opened Text
  import opened Levels
  import opened Config

  // ---------------------------------------------------------------------------
  // The three callbacks' acceptance rules

  /** The time callback accepts what `tryParseTime` can read. */
  function TimeAccept(parse: JVal -> (Instant, bool)): (accept: (string, JVal) -> bool)
    ensures forall key, value :: accept.requires(key, value) && accept.reads(key, value) == {}
    ensures forall key, value :: accept(key, value) == parse(value).1
  {
    (key: string, value: JVal) => parse(value).1
  }

  /** The message callback accepts strings only. */
  function IsStringValue(key: string, value: JVal): (ok: bool)
    ensures ok <==> exists s :: value == JStr(s)
  {
    value.JStr?
  }

  /** The level callback returns true whatever it is given. */
  function AlwaysAccept(key: string, value: JVal): (ok: bool)
    ensures ok
  {
    true
  }

  /** What the level callback stores: a string verbatim, a number through the Bunyan
      table, anything else as "???". */
  function LevelOf(value: JVal): (r: string)
    ensures value.JNum? ==> r in {"trace", "debug", "info", "warn", "error", "fatal", "???"}
    ensures !LevelConsumes(value) ==> r == "???"
  {
    match value
    case JStr(s) => s
    case JNum(n) => ConvertBunyanLogLevel(n)
    case _ => "???"
  }

  /** The level callback deletes the key only for a string or a number. */
  predicate LevelConsumes(value: JVal)
    ensures LevelConsumes(value) <==> (exists s :: value == JStr(s)) || (exists n :: value == JNum(n))
  {
    value.JStr? || value.JNum?
  }

  // ---------------------------------------------------------------------------
  // The three searches. A callback overwrites its handler field on every call, so the
  // field ends up as the last call left it; only an accepting call deletes the key it
  // was given, and it deletes it from the root document.

  function TimeStep(fields: seq<string>, parse: JVal -> (Instant, bool), doc: map<string, JVal>, time: Instant)
    : (r: (Instant, map<string, JVal>))
    ensures r.1.Keys <= doc.Keys
  {
    var o := Search(doc, fields, TimeAccept(parse));
    (if o.calls == [] then time else parse(o.LastCall().val).0,
     if o.found then DeleteJSONKey(o.LastCall().key, doc) else doc)
  }

  /** `h.Message, ok = value.(string)`: a rejected call leaves the empty string. */
  function MessageStep(fields: seq<string>, doc: map<string, JVal>, message: string): (r: (string, map<string, JVal>))
    ensures r.1.Keys <= doc.Keys
  {
    var o := Search(doc, fields, IsStringValue);
    (if o.calls == [] then message
     else if o.LastCall().val.JStr? then o.LastCall().val.s else "",
     if o.found then DeleteJSONKey(o.LastCall().key, doc) else doc)
  }

  function LevelStep(fields: seq<string>, doc: map<string, JVal>, level: string): (r: (string, map<string, JVal>))
    ensures r.1.Keys <= doc.Keys
  {
    var o := Search(doc, fields, AlwaysAccept);
    if o.calls == [] then (level, doc)
    else
      var h := o.LastCall();
      (LevelOf(h.val), if LevelConsumes(h.val) then DeleteJSONKey(h.key, doc) else doc)
  }

  datatype Extracted = Extracted(time: Instant, message: string, level: string, rest: map<string, JVal>)

  /** The three searches in their fixed order (time, message, level), each over the
      document the previous one left, starting from the handler's current values. */
  function ExtractRecord(opts: Options, parse: JVal -> (Instant, bool), doc: map<string, JVal>,
                         time: Instant, message: string, level: string): (r: Extracted)
    ensures r.rest.Keys <= doc.Keys
  {
    var (t, d1) := TimeStep(opts.TimeFields, parse, doc, time);
    var (m, d2) := MessageStep(opts.MessageFields, d1, message);
    var (l, d3) := LevelStep(opts.LevelFields, d2, level);
    Extracted(t, m, l, d3)
  }

  /** The time search removes at most one root key: two removed keys are the same. */
  lemma TimeStepRemovesOne(fields: seq<string>, parse: JVal -> (Instant, bool), doc: map<string, JVal>, time: Instant,
                           a: string, b: string)
    ensures var d := TimeStep(fields, parse, doc, time).1;
      a in doc && a !in d && b in doc && b !in d ==> a == b
  {
  }

  /** The message search removes at most one root key. */
  lemma MessageStepRemovesOne(fields: seq<string>, doc: map<string, JVal>, message: string, a: string, b: string)
    ensures var d := MessageStep(fields, doc, message).1;
      a in doc && a !in d && b in doc && b !in d ==> a == b
  {
  }

  /** The level search removes at most one root key. */
  lemma LevelStepRemovesOne(fields: seq<string>, doc: map<string, JVal>, level: string, a: string, b: string)
    ensures var d := LevelStep(fields, doc, level).1;
      a in doc && a !in d && b in doc && b !in d ==> a == b
  {
  }

  /** Each search removes at most one root key, so a record loses at most three: among
      any four root keys that are gone, two are the same. */
  lemma ExtractRemovesAtMostThree(opts: Options, parse: JVal -> (Instant, bool), doc: map<string, JVal>,
                                  time: Instant, message: string, level: string, a: string, b: string, c: string, d: string)
    ensures var rest := ExtractRecord(opts, parse, doc, time, message, level).rest;
      a in doc && a !in rest && b in doc && b !in rest && c in doc && c !in rest && d in doc && d !in rest ==>
        a == b || a == c || a == d || b == c || b == d || c == d
  {
    var d1 := TimeStep(opts.TimeFields, parse, doc, time).1;
    var d2 := MessageStep(opts.MessageFields, d1, message).1;
    var d3 := LevelStep(opts.LevelFields, d2, level).1;
    assert ExtractRecord(opts, parse, doc, time, message, level).rest == d3;
    if a in doc && a !in d3 && b in doc && b !in d3 && c in doc && c !in d3 && d in doc && d !in d3 {
      var sa, sb, sc, sd := GoneAt(a, d1, d2), GoneAt(b, d1, d2), GoneAt(c, d1, d2), GoneAt(d, d1, d2);
      if sa == sb { SameStepGone(opts, parse, doc, time, message, level, a, b); }
      else if sa == sc { SameStepGone(opts, parse, doc, time, message, level, a, c); }
      else if sa == sd { SameStepGone(opts, parse, doc, time, message, level, a, d); }
      else if sb == sc { SameStepGone(opts, parse, doc, time, message, level, b, c); }
      else if sb == sd { SameStepGone(opts, parse, doc, time, message, level, b, d); }
      else { SameStepGone(opts, parse, doc, time, message, level, c, d); }
    }
  }

  /** Which of the three searches removed key `x` (3 when the third or none did). */
  function GoneAt(x: string, d1: map<string, JVal>, d2: map<string, JVal>): int {
    if x !in d1 then 1 else if x !in d2 then 2 else 3
  }

  /** Two keys the same search removed are the same key. */
  lemma SameStepGone(opts: Options, parse: JVal -> (Instant, bool), doc: map<string, JVal>,
                     time: Instant, message: string, level: string, x: string, y: string)
    requires var d1 := TimeStep(opts.TimeFields, parse, doc, time).1;
      var d2 := MessageStep(opts.MessageFields, d1, message).1;
      var d3 := LevelStep(opts.LevelFields, d2, level).1;
      x in doc && x !in d3 && y in doc && y !in d3 && GoneAt(x, d1, d2) == GoneAt(y, d1, d2)
    ensures x == y
  {
    var d1 := TimeStep(opts.TimeFields, parse, doc, time).1;
    var d2 := MessageStep(opts.MessageFields, d1, message).1;
    if GoneAt(x, d1, d2) == 1 {
      TimeStepRemovesOne(opts.TimeFields, parse, doc, time, x, y);
    } else if GoneAt(x, d1, d2) == 2 {
      MessageStepRemovesOne(opts.MessageFields, d1, message, x, y);
    } else {
      LevelStepRemovesOne(opts.LevelFields, d2, level, x, y);
    }
  }

  // ---------------------------------------------------------------------------
  // Display strings of the remaining entries

  /** Go's `int(v)` on a float64: truncation toward zero. */
  function GoInt(v: real): (r: int)
    ensures v >= 0.0 ==> 0.0 <= r as real <= v
    ensures v < 0.0 ==> v <= r as real <= 0.0
    ensures v - 1.0 < r as real < v + 1.0
  {
    if v >= 0.0 then v.Floor else -((-v).Floor)
  }

  /** The integer test of `UnmarshalJSON`: at most a millionth above an integer and below
      a billion; there is no lower bound. */
  predicate LooksIntegral(v: real)
    ensures LooksIntegral(v) ==> v < 1000000000.0 && v - v.Floor as real < 0.000001
    ensures v == v.Floor as real && v < 1000000000.0 ==> LooksIntegral(v)
    ensures v >= 1000000000.0 ==> !LooksIntegral(v)
  {
    v - v.Floor as real < 0.000001 && v < 1000000000.0
  }

  /** A non-negative number that passes the test is within a millionth above `int(v)`; a
      negative non-integer that passes it is almost a whole unit below `int(v)`, because
      `int(v)` truncates toward zero while the test measures from the floor. */
  lemma LooksIntegralBounds(v: real)
    ensures LooksIntegral(v) && v >= 0.0 ==> 0.0 <= v - GoInt(v) as real < 0.000001
    ensures LooksIntegral(v) && v < 0.0 && v != v.Floor as real ==> GoInt(v) as real - v > 0.999999
  {
    if v < 0.0 && v != v.Floor as real {
      var f := v.Floor;
      assert f as real < v < f as real + 1.0;
      assert (-v).Floor == -f - 1;
      assert GoInt(v) == f + 1;
    }
  }

  /** The display string of one remaining entry: `%d` of `int(v)` for integer-looking
      numbers, `%g` for other numbers, `%q` for strings, `%v` for everything else. */
  function DisplayString(ext: External, value: JVal): (r: string)
    ensures value.JNum? && LooksIntegral(value.n) ==> ParseInt(r) == Some(GoInt(value.n))
  {
    match value
    case JNum(n) =>
      if LooksIntegral(n) then
        FormatIntRoundTrip(GoInt(n));
        FormatInt(GoInt(n))
      else ext.formatG(n)
    case JStr(s) => ext.quote(s)
    case _ => ext.formatV(value)
  }

  /** Every remaining entry with its display string. */
  function RenderAll(ext: External, rest: map<string, JVal>): (r: map<string, string>)
    ensures r.Keys == rest.Keys
  {
    map k | k in rest :: DisplayString(ext, rest[k])
  }

  // ---------------------------------------------------------------------------
  // Properties of the residual rendering

  /** An integer-valued number below a billion renders as its decimal digits, which read
      back as the number. */
  lemma IntegralRoundTrip(ext: External, n: int)
    requires n < 1000000000
    ensures ParseInt(DisplayString(ext, JNum(n as real))) == Some(n)
  {
    assert (n as real).Floor == n;
    if n < 0 {
      assert (-(n as real)).Floor == -n;
    }
    assert GoInt(n as real) == n;
    FormatIntRoundTrip(n);
  }

  /** Numbers of a billion and more, and numbers with a visible fraction, use `%g`. */
  lemma NonIntegralUsesG(ext: External, v: real)
    requires v >= 1000000000.0 || v - v.Floor as real >= 0.000001
    ensures DisplayString(ext, JNum(v)) == ext.formatG(v)
  {
  }

  /** `int(v)` truncates toward zero, so a negative number just above an integer renders
      as the integer nearer zero: -2.9999999 renders as "-2" while 3.0000001 renders as "3". */
  lemma NearIntegerRendering(ext: External)
    ensures DisplayString(ext, JNum(-2.9999999)) == "-2"
    ensures DisplayString(ext, JNum(3.0000001)) == "3"
  {
    assert (-2.9999999).Floor == -3;
    assert (2.9999999).Floor == 2;
    assert (3.0000001).Floor == 3;
    assert GoInt(-2.9999999) == -2;
    assert GoInt(3.0000001) == 3;
    assert FormatInt(-2) == "-" + Digits(2);
  }

  // ---------------------------------------------------------------------------
  // Properties of the searches with undotted candidates

  /** The first candidate that is present and accepted. */
  predicate FirstAccepted(doc: map<string, JVal>, fields: seq<string>, accept: (string, JVal) -> bool, i: int) {
    0 <= i < |fields| && AcceptedAt(doc, fields[i], accept)
    && forall j :: 0 <= j < i ==> !AcceptedAt(doc, fields[j], accept)
  }

  /** The time is taken from the first candidate `tryParseTime` accepts, whose key is
      deleted. When no candidate is accepted the document is untouched, and when no
      candidate is present the time is left as it was. */
  lemma TimeStepRule(fields: seq<string>, parse: JVal -> (Instant, bool), doc: map<string, JVal>, time: Instant)
    requires Undotted(fields)
    ensures forall i :: FirstAccepted(doc, fields, TimeAccept(parse), i) ==>
      TimeStep(fields, parse, doc, time) == (parse(doc[fields[i]]).0, doc - {fields[i]})
    ensures (forall j :: 0 <= j < |fields| ==> !AcceptedAt(doc, fields[j], TimeAccept(parse))) ==>
      TimeStep(fields, parse, doc, time).1 == doc
    ensures (forall j :: 0 <= j < |fields| ==> fields[j] !in doc) ==> TimeStep(fields, parse, doc, time) == (time, doc)
    ensures (forall i :: 0 <= i < |fields| ==> !AcceptedAt(doc, fields[i], TimeAccept(parse))) ==>
      forall j :: 0 <= j < |fields| && fields[j] in doc && (forall i :: j < i < |fields| ==> fields[i] !in doc) ==>
        TimeStep(fields, parse, doc, time) == (parse(doc[fields[j]]).0, doc)
  {
    SearchUndotted(doc, fields, TimeAccept(parse));
    if forall j :: 0 <= j < |fields| ==> fields[j] !in doc {
      SearchNonePresent(doc, fields, TimeAccept(parse));
    }
    if forall i :: 0 <= i < |fields| ==> !AcceptedAt(doc, fields[i], TimeAccept(parse)) {
      forall j | 0 <= j < |fields| && fields[j] in doc && (forall i :: j < i < |fields| ==> fields[i] !in doc)
        ensures TimeStep(fields, parse, doc, time) == (parse(doc[fields[j]]).0, doc)
      {
        SearchLastPresent(doc, fields, TimeAccept(parse), j);
      }
    }
  }

  /** With undotted candidates of which none is accepted, every present candidate is
      handed to the callback, so the last call is the last present candidate. */
  lemma {:induction false} SearchLastPresent(doc: map<string, JVal>, fields: seq<string>, accept: (string, JVal) -> bool, j: int)
    requires Undotted(fields)
    requires forall i :: 0 <= i < |fields| ==> !AcceptedAt(doc, fields[i], accept)
    requires 0 <= j < |fields| && fields[j] in doc && forall i :: j < i < |fields| ==> fields[i] !in doc
    ensures Search(doc, fields, accept).calls != []
    ensures Search(doc, fields, accept).LastCall() == Hit(fields[j], doc[fields[j]])
  {
    assert '.' !in fields[0];
    var tail := fields[1..];
    assert Undotted(tail) by {
      forall i | 0 <= i < |tail| ensures '.' !in tail[i] {
        assert tail[i] == fields[i + 1];
      }
    }
    if j == 0 {
      forall i | 0 <= i < |tail| ensures tail[i] !in doc {
        assert tail[i] == fields[i + 1];
      }
      SearchNonePresent(doc, tail, accept);
    } else {
      forall i | 0 <= i < |tail| ensures !AcceptedAt(doc, tail[i], accept) {
        assert tail[i] == fields[i + 1];
      }
      forall i | j - 1 < i < |tail| ensures tail[i] !in doc {
        assert tail[i] == fields[i + 1];
      }
      assert tail[j - 1] == fields[j];
      SearchLastPresent(doc, tail, accept, j - 1);
    }
  }

  /** With undotted candidates none of which is present, no call is made. */
  lemma {:induction false} SearchNonePresent(doc: map<string, JVal>, fields: seq<string>, accept: (string, JVal) -> bool)
    requires Undotted(fields)
    requires forall i :: 0 <= i < |fields| ==> fields[i] !in doc
    ensures Search(doc, fields, accept) == Outcome([], false)
  {
    if fields != [] {
      assert '.' !in fields[0];
      var tail := fields[1..];
      forall i | 0 <= i < |tail| ensures '.' !in tail[i] && tail[i] !in doc {
        assert tail[i] == fields[i + 1];
      }
      SearchNonePresent(doc, tail, accept);
    }
  }

  // ---------------------------------------------------------------------------
  // Steps with any candidates, dotted ones included

  /** With no callback call the time and the document are left as they were. Otherwise
      the time is what `tryParseTime` gives for the value some candidate resolves to, and
      the root key named by that candidate's last segment is deleted exactly when the
      value is accepted. */
  lemma TimeStepDeletesLeaf(fields: seq<string>, parse: JVal -> (Instant, bool), doc: map<string, JVal>, time: Instant)
    ensures Search(doc, fields, TimeAccept(parse)).calls == [] ==> TimeStep(fields, parse, doc, time) == (time, doc)
    ensures Search(doc, fields, TimeAccept(parse)).calls != [] ==>
      exists f :: f in fields && Resolve(doc, f).Some? &&
        var v := Resolve(doc, f).value;
        TimeStep(fields, parse, doc, time) == (parse(v).0, if parse(v).1 then DeleteJSONKey(Leaf(f), doc) else doc)
  {
    var o := Search(doc, fields, TimeAccept(parse));
    if o.calls != [] {
      var h := o.LastCall();
      assert h in o.calls;
      var f :| f in fields && Resolve(doc, f) == Some(h.val) && Leaf(f) == h.key by {
        SearchCallsResolve(doc, fields, TimeAccept(parse));
      }
      var r := TimeStep(fields, parse, doc, time);
      assert r.0 == parse(h.val).0;
      if o.found {
        assert parse(h.val).1 by {
          assert Accepts(TimeAccept(parse), h);
        }
        assert r.1 == DeleteJSONKey(Leaf(f), doc);
      } else {
        assert !parse(h.val).1 by {
          assert h == o.calls[|o.calls| - 1];
          assert !Accepts(TimeAccept(parse), h);
        }
        assert r.1 == doc;
      }
    }
  }

  /** With no callback call the message and the document are left as they were.
      Otherwise the message is the string some candidate resolves to, or "" when that
      value is not a string, and the root key named by the candidate's last segment is
      deleted exactly when the value is a string. */
  lemma MessageStepDeletesLeaf(fields: seq<string>, doc: map<string, JVal>, message: string)
    ensures Search(doc, fields, IsStringValue).calls == [] ==> MessageStep(fields, doc, message) == (message, doc)
    ensures Search(doc, fields, IsStringValue).calls != [] ==>
      exists f :: f in fields && Resolve(doc, f).Some? &&
        var v := Resolve(doc, f).value;
        MessageStep(fields, doc, message)
          == (if v.JStr? then v.s else "", if v.JStr? then DeleteJSONKey(Leaf(f), doc) else doc)
  {
    var o := Search(doc, fields, IsStringValue);
    if o.calls != [] {
      var h := o.LastCall();
      assert h in o.calls;
      var f :| f in fields && Resolve(doc, f) == Some(h.val) && Leaf(f) == h.key by {
        SearchCallsResolve(doc, fields, IsStringValue);
      }
      var r := MessageStep(fields, doc, message);
      assert r.0 == (if h.val.JStr? then h.val.s else "");
      if o.found {
        assert h.val.JStr? by {
          assert Accepts(IsStringValue, h);
        }
        assert r.1 == DeleteJSONKey(Leaf(f), doc);
      } else {
        assert !h.val.JStr? by {
          assert h == o.calls[|o.calls| - 1];
          assert !Accepts(IsStringValue, h);
        }
        assert r.1 == doc;
      }
    }
  }

  /** With no callback call the level and the document are left as they were. Otherwise
      the level comes from the value some candidate resolves to, and the root key named by
      the candidate's last segment is deleted exactly when that value is a string or a
      number. */
  lemma LevelStepDeletesLeaf(fields: seq<string>, doc: map<string, JVal>, level: string)
    ensures Search(doc, fields, AlwaysAccept).calls == [] ==> LevelStep(fields, doc, level) == (level, doc)
    ensures Search(doc, fields, AlwaysAccept).calls != [] ==>
      exists f :: f in fields && Resolve(doc, f).Some? &&
        var v := Resolve(doc, f).value;
        LevelStep(fields, doc, level) == (LevelOf(v), if LevelConsumes(v) then DeleteJSONKey(Leaf(f), doc) else doc)
  {
    var o := Search(doc, fields, AlwaysAccept);
    if o.calls != [] {
      var h := o.LastCall();
      assert h in o.calls;
      var f :| f in fields && Resolve(doc, f) == Some(h.val) && Leaf(f) == h.key by {
        SearchCallsResolve(doc, fields, AlwaysAccept);
      }
    }
  }

  /** The level search stops at the first candidate present in the document, whatever
      its value: a string becomes the level verbatim and a number goes through the
      Bunyan table, and both delete the key; any other value gives "???" and deletes
      nothing. With no candidate present the level and document are left as they were. */
  lemma LevelStepRule(fields: seq<string>, doc: map<string, JVal>, level: string)
    requires Undotted(fields)
    ensures (forall j :: 0 <= j < |fields| ==> fields[j] !in doc) ==> LevelStep(fields, doc, level) == (level, doc)
    ensures forall i :: FirstAccepted(doc, fields, AlwaysAccept, i) ==>
      var v := doc[fields[i]];
      LevelStep(fields, doc, level) == (LevelOf(v), if LevelConsumes(v) then doc - {fields[i]} else doc)
  {
    SearchUndotted(doc, fields, AlwaysAccept);
    var o := Search(doc, fields, AlwaysAccept);
    if o.calls != [] {
      assert Accepts(AlwaysAccept, o.calls[|o.calls| - 1]);
    }
  }

  /** The message is the first string-valued candidate, whose key is deleted. When no
      candidate holds a string the document is untouched, and the message is the empty
      string if some candidate was present with another kind of value, or left as it
      was if none was present. */
  lemma MessageStepRule(fields: seq<string>, doc: map<string, JVal>, message: string)
    requires Undotted(fields)
    ensures forall i :: FirstAccepted(doc, fields, IsStringValue, i) ==>
      MessageStep(fields, doc, message) == (doc[fields[i]].s, doc - {fields[i]})
    ensures (forall j :: 0 <= j < |fields| ==> !AcceptedAt(doc, fields[j], IsStringValue)) ==>
      MessageStep(fields, doc, message).1 == doc
      && MessageStep(fields, doc, message).0 == (if exists j :: 0 <= j < |fields| && fields[j] in doc then "" else message)
  {
    SearchUndotted(doc, fields, IsStringValue);
    SearchCallsResolve(doc, fields, IsStringValue);
    var o := Search(doc, fields, IsStringValue);
    if !o.found {
      if o.calls != [] {
        var h := o.LastCall();
        assert h in o.calls;
        var f :| f in fields && Resolve(doc, f) == Some(h.val) && Leaf(f) == h.key;
      } else if exists j :: 0 <= j < |fields| && fields[j] in doc {
        var j :| 0 <= j < |fields| && fields[j] in doc;
        SearchPresentCalls(doc, fields, IsStringValue, j);
      }
    }
  }

  /** With undotted candidates, a present candidate is handed to the callback unless an
      earlier candidate was accepted; in any case some call is made. */
  lemma {:induction false} SearchPresentCalls(doc: map<string, JVal>, fields: seq<string>, accept: (string, JVal) -> bool, j: int)
    requires Undotted(fields)
    requires 0 <= j < |fields| && fields[j] in doc
    ensures Search(doc, fields, accept).calls != []
    ensures (forall i :: 0 <= i < j ==> !AcceptedAt(doc, fields[i], accept)) ==>
      Hit(fields[j], doc[fields[j]]) in Search(doc, fields, accept).calls
  {
    assert '.' !in fields[0];
    if j > 0 {
      assert Undotted(fields[1..]) by {
        forall i | 0 <= i < |fields[1..]| ensures '.' !in fields[1..][i] {
          assert fields[1..][i] == fields[i + 1];
        }
      }
      assert fields[1..][j - 1] == fields[j];
      SearchPresentCalls(doc, fields[1..], accept, j - 1);
      if forall i :: 0 <= i < j ==> !AcceptedAt(doc, fields[i], accept) {
        forall i | 0 <= i < j - 1 ensures !AcceptedAt(doc, fields[1..][i], accept) {
          assert fields[1..][i] == fields[i + 1];
        }
        assert !AcceptedAt(doc, fields[0], accept);
      }
    }
  }

  /** A dotted match is handed to the callback under its inner key and the callback
      deletes that key from the root document: `data.msg` consumes the nested message
      but leaves it in place, and removes an unrelated root `msg` instead. */
  lemma DottedMatchDeletesRootKey()
    ensures var inner := map["msg" := JStr("hi")];
      var doc := map["data" := JObj(inner), "msg" := JNum(5.0)];
      MessageStep(["data.msg"], doc, "") == ("hi", map["data" := JObj(inner)])
  {
    var inner := map["msg" := JStr("hi")];
    var doc := map["data" := JObj(inner), "msg" := JNum(5.0)];
    DataMsgSearch(doc, inner);
    MessageStepOfOneHit(["data.msg"], doc, "", "msg", "hi");
    assert DeleteJSONKey("msg", doc) == map["data" := JObj(inner)] by {
      assert DeleteJSONKey("msg", doc) == doc - {"msg"};
      assert doc - {"msg"} == map["data" := JObj(inner)];
    }
  }

  /** A search that ends in one accepted call on a string sets the message to it and
      deletes the key the callback was given. */
  lemma MessageStepOfOneHit(fields: seq<string>, doc: map<string, JVal>, message: string, k: string, s: string)
    requires Search(doc, fields, IsStringValue) == Outcome([Hit(k, JStr(s))], true)
    ensures MessageStep(fields, doc, message) == (s, DeleteJSONKey(k, doc))
  {
  }

  /** The search for `data.msg` hands the callback the nested string under its inner key. */
  lemma DataMsgSearch(doc: map<string, JVal>, inner: map<string, JVal>)
    requires inner == map["msg" := JStr("hi")]
    requires "data" in doc && doc["data"] == JObj(inner)
    ensures Search(doc, ["data.msg"], IsStringValue) == Outcome([Hit("msg", JStr("hi"))], true)
  {
    DottedDescends(doc, "data", "msg", [], IsStringValue);
    assert "data" + "." + "msg" == "data.msg";
    assert ["data.msg"] == ["data" + "." + "msg"] + [];
    SingleStringSearch(inner, "msg");
  }

  lemma SingleStringSearch(doc: map<string, JVal>, k: string)
    requires '.' !in k && k in doc && doc[k].JStr?
    ensures Search(doc, [k], IsStringValue) == Outcome([Hit(k, doc[k])], true)
  {
  }
}
