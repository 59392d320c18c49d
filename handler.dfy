/** `JSONHandler`: the record fields it fills from a document, the previous render's
    fields it keeps for unchanged-value suppression, and the operations that update them. */
module Handler {
  import opened Wrappers
  import opened Json
  import opened FieldLocator
  import opened Text
  import opened Levels
  import opened Config
  import opened Extract
  import opened Render

  class JSONHandler {
    const Opts: Options
    const ext: External

    var Level: string
    var Time: Instant
    var Message: string
    var Fields: map<string, string>
    /** The fields of the previous render, for unchanged-value suppression. */
    var last: map<string, string>

    /** A handler as Go's zero value leaves it, with its options and outside code. */
    constructor (opts: Options, ext: External)
      ensures Opts == opts && this.ext == ext
      ensures Level == "" && Time == ZeroTime && Message == ""
      ensures Fields == map[] && last == map[]
    {
      Opts := opts;
      this.ext := ext;
      Level, Time, Message := "", ZeroTime, "";
      Fields, last := map[], map[];
    }

    /** `clear`: archives the fields as the previous render's and resets the record. */
    method Clear()
      modifies this
      ensures Level == "" && Time == ZeroTime && Message == ""
      ensures last == old(Fields) && Fields == map[]
    {
      Level := "";
      Time := ZeroTime;
      Message := "";
      last := Fields;
      Fields := map[];
    }

    /** `UnmarshalJSON` on an already decoded document (`None` when decoding failed).
        On success the time, message and level are what the three searches leave, and
        every entry left in the document is added to the existing fields. */
    method UnmarshalJSON(decoded: Option<map<string, JVal>>) returns (ok: bool)
      modifies this
      ensures ok == decoded.Some?
      ensures !ok ==> Level == old(Level) && Time == old(Time) && Message == old(Message)
                      && Fields == old(Fields) && last == old(last)
      ensures ok ==>
        var r := ExtractRecord(Opts, ext.tryParseTime, decoded.value, old(Time), old(Message), old(Level));
        Time == r.time && Message == r.message && Level == r.level
        && Fields == old(Fields) + RenderAll(ext, r.rest) && last == old(last)
    {
      if decoded.None? {
        return false;
      }
      var raw := decoded.value;
      raw := TakeTime(raw);
      raw := TakeMessage(raw);
      raw := TakeLevel(raw);
      StoreRemaining(raw);
      return true;
    }

    /** The time search: the time the callbacks leave, and the document without the
        accepted entry. */
    method TakeTime(raw: map<string, JVal>) returns (rest: map<string, JVal>)
      modifies this
      ensures (Time, rest) == TimeStep(Opts.TimeFields, ext.tryParseTime, raw, old(Time))
      ensures Level == old(Level) && Message == old(Message) && Fields == old(Fields) && last == old(last)
    {
      var found, calls := SearchJSON(raw, Opts.TimeFields, TimeAccept(ext.tryParseTime));
      ghost var step := TimeStep(Opts.TimeFields, ext.tryParseTime, raw, Time);
      if calls != [] {
        Time := ext.tryParseTime(calls[|calls| - 1].val).0;
      }
      assert Time == step.0;
      rest := raw;
      if found {
        rest := DeleteJSONKey(calls[|calls| - 1].key, raw);
      }
      assert rest == step.1;
    }

    /** The message search: a rejected last call leaves the empty message. */
    method TakeMessage(raw: map<string, JVal>) returns (rest: map<string, JVal>)
      modifies this
      ensures (Message, rest) == MessageStep(Opts.MessageFields, raw, old(Message))
      ensures Level == old(Level) && Time == old(Time) && Fields == old(Fields) && last == old(last)
    {
      var found, calls := SearchJSON(raw, Opts.MessageFields, IsStringValue);
      ghost var step := MessageStep(Opts.MessageFields, raw, Message);
      if calls != [] {
        var value := calls[|calls| - 1].val;
        Message := if value.JStr? then value.s else "";
      }
      assert Message == step.0;
      rest := raw;
      if found {
        rest := DeleteJSONKey(calls[|calls| - 1].key, raw);
      }
      assert rest == step.1;
    }

    /** The level search: strings and Bunyan numbers are consumed, anything else
        gives `???` and stays in the document. */
    method TakeLevel(raw: map<string, JVal>) returns (rest: map<string, JVal>)
      modifies this
      ensures (Level, rest) == LevelStep(Opts.LevelFields, raw, old(Level))
      ensures Message == old(Message) && Time == old(Time) && Fields == old(Fields) && last == old(last)
    {
      var found, calls := SearchJSON(raw, Opts.LevelFields, AlwaysAccept);
      rest := raw;
      if calls != [] {
        var h := calls[|calls| - 1];
        match h.val {
          case JStr(s) =>
            Level := s;
            rest := DeleteJSONKey(h.key, raw);
          case JNum(n) =>
            Level := ConvertBunyanLogLevel(n);
            rest := DeleteJSONKey(h.key, raw);
          case _ =>
            Level := "???";
        }
      }
    }

    /** The residual loop: every remaining entry's display string becomes a field. */
    method StoreRemaining(raw: map<string, JVal>)
      modifies this
      ensures Fields == old(Fields) + RenderAll(ext, raw)
      ensures Level == old(Level) && Time == old(Time) && Message == old(Message) && last == old(last)
    {
      var todo := raw.Keys;
      while todo != {}
        invariant todo <= raw.Keys
        invariant Fields.Keys == old(Fields).Keys + (raw.Keys - todo)
        invariant forall k :: k in Fields ==>
          Fields[k] == if k in raw.Keys - todo then DisplayString(ext, raw[k]) else old(Fields)[k]
        invariant Level == old(Level) && Time == old(Time) && Message == old(Message) && last == old(last)
        decreases todo
      {
        var key :| key in todo;
        Fields := Fields[key := DisplayString(ext, raw[key])];
        todo := todo - {key};
      }
      assert raw.Keys - todo == raw.Keys;
      ghost var all := old(Fields) + RenderAll(ext, raw);
      assert Fields.Keys == all.Keys;
      assert forall k :: k in Fields ==> Fields[k] == all[k];
    }

    /** `TryHandle`: extraction, and on failure a `clear`. */
    method TryHandle(decoded: Option<map<string, JVal>>) returns (ok: bool)
      modifies this
      ensures ok == decoded.Some?
      ensures !ok ==> Level == "" && Time == ZeroTime && Message == ""
                      && last == old(Fields) && Fields == map[]
      ensures ok ==>
        var r := ExtractRecord(Opts, ext.tryParseTime, decoded.value, old(Time), old(Message), old(Level));
        Time == r.time && Message == r.message && Level == r.level
        && Fields == old(Fields) + RenderAll(ext, r.rest) && last == old(last)
    {
      ok := UnmarshalJSON(decoded);
      if !ok {
        Clear();
      }
    }

    /** `setField`: sets one field and changes nothing else. */
    method SetField(key: string, val: string)
      modifies this
      ensures Fields == old(Fields)[key := val]
      ensures Level == old(Level) && Time == old(Time) && Message == old(Message) && last == old(last)
    {
      Fields := Fields[key := val];
    }

    /** `joinKVs`: one segment per shown field, visited in any order, then sorted. The
        result is the same whatever order the fields are visited in. */
    method JoinKVs(skipUnchanged: bool, sep: string) returns (kv: seq<string>)
      ensures kv == KVSpec(Opts, Fields, last, skipUnchanged, sep)
    {
      kv := CollectSegments(skipUnchanged, sep);
      SortedSegments(Opts, Fields, last, skipUnchanged, sep, kv);
      kv := SortStrings(kv);
      if Opts.SortLongest {
        kv := SortByLength(kv);
      }
    }

    /** The append loop of `joinKVs`: the segments of the shown fields, in the order the
        fields happen to be visited. */
    method CollectSegments(skipUnchanged: bool, sep: string) returns (kv: seq<string>)
      ensures multiset(kv) == EntryBag(Opts, Fields, last, skipUnchanged, sep, Fields.Keys)
    {
      var opts, fields, prev := Opts, Fields, last;
      ghost var all := EntryBag(opts, fields, prev, skipUnchanged, sep, fields.Keys);
      kv := [];
      var todo := fields.Keys;
      while todo != {}
        invariant todo <= fields.Keys
        invariant multiset(kv) + EntryBag(opts, fields, prev, skipUnchanged, sep, todo) == all
        decreases todo
      {
        var k :| k in todo;
        CollectStep(opts, fields, prev, skipUnchanged, sep, todo, k, kv);
        var v := fields[k];
        if opts.ShowKey(k) && !(skipUnchanged && k in prev && prev[k] == v && !opts.ShowUnchanged(k)) {
          var kstr := opts.KeyColor.Sprint(k);
          var vstr := if opts.Truncates && |v| > opts.TruncateLength then v[..opts.TruncateLength] + "..." else v;
          vstr := opts.ValColor.Sprint(vstr);
          assert kstr + sep + vstr == Entry(opts, fields, sep, k);
          kv := kv + [kstr + sep + vstr];
        }
        todo := todo - {k};
      }
    }

    /** `Prettify`: the line for the current record, then a `clear` (run by `defer`), so
        the fields just rendered become the previous render's. */
    method Prettify(skipUnchanged: bool) returns (line: string)
      modifies this
      ensures line == Line(Opts, ext, old(Time), old(Level), old(Message),
                           KVSpec(Opts, old(Fields), old(last), skipUnchanged, "="))
      ensures Level == "" && Time == ZeroTime && Message == ""
      ensures last == old(Fields) && Fields == map[]
    {
      var kvs := JoinKVs(skipUnchanged, "=");
      line := Line(Opts, ext, Time, Level, Message, kvs);
      Clear();
    }
  }

  /** A render followed by a failed parse: the failed parse's `clear` archives the empty
      fields the render left, so the history for unchanged-value suppression is gone. */
  method RenderThenFailedParse(h: JSONHandler, skipUnchanged: bool) returns (line: string)
    modifies h
    ensures h.last == map[] && h.Fields == map[]
  {
    line := h.Prettify(skipUnchanged);
    var ok := h.TryHandle(None);
  }
}
