/** What `Prettify` and `joinKVs` produce from the handler's state: the key/value
    segments (filtered, suppressed when unchanged, truncated, sorted), the level
    abbreviation and colour, the message or its placeholder, and the whole line. */
module Render {
  import opened Text
  import opened Levels
  import opened Config

  // ---------------------------------------------------------------------------
  // Key/value segments

  /** A value cut to `TruncateLength` characters and marked with "..." when truncation is
      on and the value is longer than that; otherwise the value itself. Either way the
      value's first `min(|v|, TruncateLength)` characters are kept. */
  function Truncated(opts: Options, v: string): (r: string)
    ensures var keep := if |v| < opts.TruncateLength then |v| else opts.TruncateLength;
      keep <= |r| && r[..keep] == v[..keep]
    ensures opts.Truncates && |v| > opts.TruncateLength ==> r[opts.TruncateLength..] == "..."
    ensures !opts.Truncates || |v| <= opts.TruncateLength ==> r == v
    ensures |r| <= if |v| < opts.TruncateLength + 3 then opts.TruncateLength + 3 else |v|
  {
    if opts.Truncates && |v| > opts.TruncateLength then v[..opts.TruncateLength] + "..." else v
  }

  /** Field `k` is shown: the options show the key, and unless the options always show it
      unchanged, a skipped-unchanged render leaves it out when the previous render had
      the same value under the same key. */
  predicate Shown(opts: Options, fields: map<string, string>, last: map<string, string>, skip: bool, k: string)
    requires k in fields
    ensures Shown(opts, fields, last, skip, k) ==> opts.ShowKey(k)
    ensures !skip || k !in last || last[k] != fields[k] || opts.ShowUnchanged(k) ==>
      (Shown(opts, fields, last, skip, k) <==> opts.ShowKey(k))
    ensures skip && k in last && last[k] == fields[k] && !opts.ShowUnchanged(k) ==> !Shown(opts, fields, last, skip, k)
  {
    opts.ShowKey(k) && !(skip && k in last && last[k] == fields[k] && !opts.ShowUnchanged(k))
  }

  /** The segment of field `k`: the coloured key, the separator, the coloured value. */
  function Entry(opts: Options, fields: map<string, string>, sep: string, k: string): (r: string)
    requires k in fields
    ensures |opts.KeyColor.Sprint(k)| <= |r| && r[..|opts.KeyColor.Sprint(k)|] == opts.KeyColor.Sprint(k)
  {
    opts.KeyColor.Sprint(k) + sep + opts.ValColor.Sprint(Truncated(opts, fields[k]))
  }

  ghost function EntryOf(opts: Options, fields: map<string, string>, last: map<string, string>, skip: bool, sep: string, k: string)
    : multiset<string>
    requires k in fields
  {
    if Shown(opts, fields, last, skip, k) then multiset{Entry(opts, fields, sep, k)} else multiset{}
  }

  /** The sum of the bags `f(k)` over a set of keys. */
  ghost function BagOf(f: string -> multiset<string>, keys: set<string>): multiset<string>
    decreases keys
  {
    if keys == {} then multiset{}
    else
      var k :| k in keys;
      f(k) + BagOf(f, keys - {k})
  }

  /** The sum does not depend on the order in which the keys are taken. */
  lemma {:induction false} BagOfPick(f: string -> multiset<string>, keys: set<string>, k: string)
    requires k in keys
    decreases keys
    ensures BagOf(f, keys) == f(k) + BagOf(f, keys - {k})
  {
    var k' :| k' in keys && BagOf(f, keys) == f(k') + BagOf(f, keys - {k'});
    if k' != k {
      BagOfPick(f, keys - {k'}, k);
      BagOfPick(f, keys - {k}, k');
      assert keys - {k'} - {k} == keys - {k} - {k'};
    }
  }

  ghost function EntryFn(opts: Options, fields: map<string, string>, last: map<string, string>, skip: bool, sep: string)
    : string -> multiset<string>
  {
    k => if k in fields then EntryOf(opts, fields, last, skip, sep, k) else multiset{}
  }

  /** The segments of the shown fields among `keys`, one per field. */
  ghost function EntryBag(opts: Options, fields: map<string, string>, last: map<string, string>, skip: bool, sep: string,
                          keys: set<string>): multiset<string>
  {
    BagOf(EntryFn(opts, fields, last, skip, sep), keys)
  }

  /** The bag does not depend on the order in which fields are visited. */
  lemma EntryBagPick(opts: Options, fields: map<string, string>, last: map<string, string>, skip: bool,
                     sep: string, keys: set<string>, k: string)
    requires keys <= fields.Keys && k in keys
    ensures EntryBag(opts, fields, last, skip, sep, keys)
         == EntryOf(opts, fields, last, skip, sep, k) + EntryBag(opts, fields, last, skip, sep, keys - {k})
  {
    BagOfPick(EntryFn(opts, fields, last, skip, sep), keys, k);
  }

  /** The set of fields among `keys` that are shown. */
  ghost function ShownKeys(opts: Options, fields: map<string, string>, last: map<string, string>, skip: bool, keys: set<string>)
    : set<string>
    requires keys <= fields.Keys
  {
    set k | k in keys && Shown(opts, fields, last, skip, k)
  }

  /** One segment per shown field. */
  lemma {:induction false} EntryBagSize(opts: Options, fields: map<string, string>, last: map<string, string>, skip: bool,
                                        sep: string, keys: set<string>)
    requires keys <= fields.Keys
    decreases keys
    ensures |EntryBag(opts, fields, last, skip, sep, keys)| == |ShownKeys(opts, fields, last, skip, keys)|
  {
    if keys != {} {
      var k :| k in keys;
      EntryBagPick(opts, fields, last, skip, sep, keys, k);
      EntryBagSize(opts, fields, last, skip, sep, keys - {k});
      ShownKeysRemove(opts, fields, last, skip, keys, k);
    } else {
      assert ShownKeys(opts, fields, last, skip, keys) == {};
    }
  }

  lemma ShownKeysRemove(opts: Options, fields: map<string, string>, last: map<string, string>, skip: bool,
                        keys: set<string>, k: string)
    requires keys <= fields.Keys && k in keys
    ensures |ShownKeys(opts, fields, last, skip, keys)|
         == |ShownKeys(opts, fields, last, skip, keys - {k})| + if Shown(opts, fields, last, skip, k) then 1 else 0
  {
    var shown := ShownKeys(opts, fields, last, skip, keys);
    var shown' := ShownKeys(opts, fields, last, skip, keys - {k});
    if Shown(opts, fields, last, skip, k) {
      assert shown == shown' + {k};
      assert k !in shown';
    } else {
      assert shown == shown';
    }
  }

  /** The bag holds exactly the segments of the shown fields. */
  lemma {:induction false} EntryBagMember(opts: Options, fields: map<string, string>, last: map<string, string>, skip: bool,
                                          sep: string, keys: set<string>, s: string)
    requires keys <= fields.Keys
    decreases keys
    ensures s in EntryBag(opts, fields, last, skip, sep, keys) <==>
      exists k :: k in keys && Shown(opts, fields, last, skip, k) && s == Entry(opts, fields, sep, k)
  {
    if keys != {} {
      var k :| k in keys;
      EntryBagPick(opts, fields, last, skip, sep, keys, k);
      EntryBagMember(opts, fields, last, skip, sep, keys - {k}, s);
      if exists k' :: k' in keys && Shown(opts, fields, last, skip, k') && s == Entry(opts, fields, sep, k') {
        var k' :| k' in keys && Shown(opts, fields, last, skip, k') && s == Entry(opts, fields, sep, k');
        if k' != k { assert k' in keys - {k}; }
      }
    }
  }

  /** Some sequence holding exactly the elements of a bag. */
  ghost function BagSeq(b: multiset<string>): (s: seq<string>)
    ensures multiset(s) == b
    decreases |b|
  {
    if |b| == 0 then []
    else
      var x :| x in b;
      [x] + BagSeq(b - multiset{x})
  }

  /** The segments `joinKVs` returns: every shown field's segment, sorted, and then
      stably by length when `SortLongest` is set. */
  ghost function KVSpec(opts: Options, fields: map<string, string>, last: map<string, string>, skip: bool, sep: string)
    : (r: seq<string>)
    ensures multiset(r) == EntryBag(opts, fields, last, skip, sep, fields.Keys)
  {
    var sorted := SortStrings(BagSeq(EntryBag(opts, fields, last, skip, sep, fields.Keys)));
    if opts.SortLongest then SortByLength(sorted) else sorted
  }

  /** Visiting field `k` adds its segment exactly when it is shown. */
  lemma CollectStep(opts: Options, fields: map<string, string>, last: map<string, string>, skip: bool, sep: string,
                    todo: set<string>, k: string, kv: seq<string>)
    requires todo <= fields.Keys && k in todo
    ensures Shown(opts, fields, last, skip, k) ==>
      multiset(kv + [Entry(opts, fields, sep, k)]) + EntryBag(opts, fields, last, skip, sep, todo - {k})
        == multiset(kv) + EntryBag(opts, fields, last, skip, sep, todo)
    ensures !Shown(opts, fields, last, skip, k) ==>
      multiset(kv) + EntryBag(opts, fields, last, skip, sep, todo - {k}) == multiset(kv) + EntryBag(opts, fields, last, skip, sep, todo)
  {
    EntryBagPick(opts, fields, last, skip, sep, todo, k);
  }

  /** Sorting the segments collected in any order gives the specified result. */
  lemma SortedSegments(opts: Options, fields: map<string, string>, last: map<string, string>, skip: bool, sep: string,
                       kv: seq<string>)
    requires multiset(kv) == EntryBag(opts, fields, last, skip, sep, fields.Keys)
    ensures (if opts.SortLongest then SortByLength(SortStrings(kv)) else SortStrings(kv)) == KVSpec(opts, fields, last, skip, sep)
  {
    SortedUnique(SortStrings(kv), SortStrings(BagSeq(EntryBag(opts, fields, last, skip, sep, fields.Keys))));
  }

  /** There are as many segments as shown fields, and so at most as many as fields. */
  lemma KVSpecSize(opts: Options, fields: map<string, string>, last: map<string, string>, skip: bool, sep: string)
    ensures |KVSpec(opts, fields, last, skip, sep)| == |ShownKeys(opts, fields, last, skip, fields.Keys)| <= |fields|
  {
    EntryBagSize(opts, fields, last, skip, sep, fields.Keys);
    var kv := KVSpec(opts, fields, last, skip, sep);
    assert |kv| == |multiset(kv)|;
    var shown := ShownKeys(opts, fields, last, skip, fields.Keys);
    assert shown <= fields.Keys;
    assert |shown| <= |fields.Keys| by { SubsetCard(shown, fields.Keys); }
  }

  lemma SubsetCard(a: set<string>, b: set<string>)
    requires a <= b
    ensures |a| <= |b|
  {
    assert b == a + (b - a);
  }

  /** Each segment comes from a shown field, and each shown field contributes its segment. */
  lemma KVSpecMember(opts: Options, fields: map<string, string>, last: map<string, string>, skip: bool, sep: string, s: string)
    ensures s in KVSpec(opts, fields, last, skip, sep) <==>
      exists k :: k in fields && Shown(opts, fields, last, skip, k) && s == Entry(opts, fields, sep, k)
  {
    EntryBagMember(opts, fields, last, skip, sep, fields.Keys, s);
    var kv := KVSpec(opts, fields, last, skip, sep);
    assert s in kv <==> s in multiset(kv);
  }

  /** The segments are in string order, or ordered by length and then string order when
      `SortLongest` is set. */
  lemma KVSpecOrder(opts: Options, fields: map<string, string>, last: map<string, string>, skip: bool, sep: string)
    ensures !opts.SortLongest ==> LexSorted(KVSpec(opts, fields, last, skip, sep))
    ensures opts.SortLongest ==> LenLexSorted(KVSpec(opts, fields, last, skip, sep))
  {
    SortByLengthOfSorted(SortStrings(BagSeq(EntryBag(opts, fields, last, skip, sep, fields.Keys))));
  }

  /** A shown field has its segment among the segments, and the segment holds the whole
      value when it fits (or truncation is off), or else its cut-down form and "...". */
  lemma SegmentOfShownField(opts: Options, fields: map<string, string>, last: map<string, string>, skip: bool,
                            sep: string, k: string)
    requires k in fields && Shown(opts, fields, last, skip, k)
    ensures Entry(opts, fields, sep, k) in KVSpec(opts, fields, last, skip, sep)
    ensures !opts.Truncates || |fields[k]| <= opts.TruncateLength ==>
      exists o :: OccursAt(fields[k], Entry(opts, fields, sep, k), o)
    ensures opts.Truncates && |fields[k]| > opts.TruncateLength ==>
      exists o :: OccursAt(fields[k][..opts.TruncateLength] + "...", Entry(opts, fields, sep, k), o)
  {
    KVSpecMember(opts, fields, last, skip, sep, Entry(opts, fields, sep, k));
    EntryHoldsValue(opts, fields, sep, k);
  }

  /** A segment holds its field's value as `Truncated` leaves it. */
  lemma EntryHoldsValue(opts: Options, fields: map<string, string>, sep: string, k: string)
    requires k in fields
    ensures OccursAt(Truncated(opts, fields[k]), Entry(opts, fields, sep, k), |opts.KeyColor.Sprint(k)| + |sep| + |opts.ValColor.open|)
  {
    var e := Entry(opts, fields, sep, k);
    var t := Truncated(opts, fields[k]);
    var o := |opts.KeyColor.Sprint(k)| + |sep| + |opts.ValColor.open|;
    var painted := opts.ValColor.Sprint(t);
    assert e == (opts.KeyColor.Sprint(k) + sep) + painted;
    assert e[o..o + |t|] == painted[|opts.ValColor.open|..|opts.ValColor.open| + |t|];
  }

  /** Skipping unchanged values never adds a segment. */
  lemma SkipNeverAdds(opts: Options, fields: map<string, string>, last: map<string, string>, sep: string)
    ensures |KVSpec(opts, fields, last, true, sep)| <= |KVSpec(opts, fields, last, false, sep)|
  {
    KVSpecSize(opts, fields, last, true, sep);
    KVSpecSize(opts, fields, last, false, sep);
    SubsetCard(ShownKeys(opts, fields, last, true, fields.Keys), ShownKeys(opts, fields, last, false, fields.Keys));
  }

  /** Rendering the very fields of the previous render with unchanged values skipped shows
      nothing, when no key is exempt from the suppression. */
  lemma RepeatedRecordShowsNothing(opts: Options, fields: map<string, string>, sep: string)
    requires forall k :: k in fields ==> !opts.ShowUnchanged(k)
    ensures KVSpec(opts, fields, fields, true, sep) == []
  {
    KVSpecSize(opts, fields, fields, true, sep);
    assert ShownKeys(opts, fields, fields, true, fields.Keys) == {};
  }

  // ---------------------------------------------------------------------------
  // The line

  /** The message painted with the fixed high-intensity white (the configured message
      colours are overwritten), or the placeholder "<no msg>" when it is empty. */
  function MessageText(ext: External, message: string): (r: string)
    ensures |ext.hiWhite.open| + |ext.hiWhite.close| <= |r|
    ensures r[|ext.hiWhite.open|..|r| - |ext.hiWhite.close|] == if message == "" then "<no msg>" else message
  {
    if message == "" then ext.hiWhite.Sprint("<no msg>") else ext.hiWhite.Sprint(message)
  }

  /** Distinct messages stay distinct, except that an empty message and the literal
      message "<no msg>" render alike, since both use the same colour. */
  lemma MessageTextDistinguishes(ext: External, a: string, b: string)
    ensures a != "" && b != "" && MessageText(ext, a) == MessageText(ext, b) ==> a == b
    ensures MessageText(ext, "") == MessageText(ext, "<no msg>")
  {
    if a != "" && b != "" && MessageText(ext, a) == MessageText(ext, b) {
      SprintInjective(ext.hiWhite, a, b);
    }
  }

  function LevelColor(opts: Options, level: string): (c: Color)
    ensures level == "debug" ==> c == opts.DebugLevelColor
    ensures level == "info" ==> c == opts.InfoLevelColor
    ensures level == "warn" || level == "warning" ==> c == opts.WarnLevelColor
    ensures level == "error" ==> c == opts.ErrorLevelColor
    ensures level == "fatal" || level == "panic" ==> c == opts.FatalLevelColor
    ensures level !in {"debug", "info", "warn", "warning", "error", "fatal", "panic"} ==> c == opts.UnknownLevelColor
  {
    match RoleOf(level)
    case DebugRole => opts.DebugLevelColor
    case InfoRole => opts.InfoLevelColor
    case WarnRole => opts.WarnLevelColor
    case ErrorRole => opts.ErrorLevelColor
    case FatalRole => opts.FatalLevelColor
    case UnknownRole => opts.UnknownLevelColor
  }

  /** The time colour: the light-background one exactly when `LightBg` is set. */
  function TimeColor(opts: Options): (c: Color)
    ensures opts.LightBg ==> c == opts.TimeLightBgColor
    ensures !opts.LightBg ==> c == opts.TimeDarkBgColor
  {
    if opts.LightBg then opts.TimeLightBgColor else opts.TimeDarkBgColor
  }

  /** `"%s |%s| %s\t %s"` of the time, level, message and the segments joined by "\t ",
      before column alignment. */
  function Line(opts: Options, ext: External, time: Instant, level: string, message: string, kvs: seq<string>): (r: string)
    ensures var t := TimeColor(opts).Sprint(ext.formatTime(time, opts.TimeFormat));
      |t| <= |r| && r[..|t|] == t
    ensures var j := Join(kvs, "\t ");
      |j| <= |r| && r[|r| - |j|..] == j
  {
    TimeColor(opts).Sprint(ext.formatTime(time, opts.TimeFormat))
      + " |" + LevelColor(opts, level).Sprint(LevelAbbrev(level)) + "| "
      + MessageText(ext, message) + "\t " + Join(kvs, "\t ")
  }

  /** Every segment `joinKVs` returns appears whole in the line. */
  lemma LineShowsSegments(opts: Options, ext: External, time: Instant, level: string, message: string,
                          kvs: seq<string>, i: int)
    requires 0 <= i < |kvs|
    ensures exists o :: OccursAt(kvs[i], Line(opts, ext, time, level, message, kvs), o)
  {
    var line := Line(opts, ext, time, level, message, kvs);
    var j := Join(kvs, "\t ");
    JoinContains(kvs, "\t ", i);
    var o :| OccursAt(kvs[i], j, o);
    var d := |line| - |j|;
    assert line == line[..d] + j;
    assert line[d + o..d + o + |kvs[i]|] == j[o..o + |kvs[i]|];
    assert OccursAt(kvs[i], line, d + o);
  }
}
