/** Field lookup and removal in a decoded JSON document: `searchJSON`,
    `checkEachUntilFound` and `deleteJSONKey`. */
module FieldLocator {
  import opened Wrappers
  import opened Json

  /** One invocation of the `found` callback: the key and value it was given. */
  datatype Hit = Hit(key: string, val: JVal)

  /** What a search did: the callback invocations in order, and its boolean result.
      The callbacks of the handler have effects (they overwrite handler fields on every
      call), so the whole trace is part of the observable behaviour, not only the result. */
  datatype Outcome = Outcome(calls: seq<Hit>, found: bool) {
    function LastCall(): Hit
      requires calls != []
    {
      calls[|calls| - 1]
    }
  }

  predicate Accepts(accept: (string, JVal) -> bool, h: Hit) {
    accept(h.key, h.val)
  }

  /** The search `searchJSON` performs, as a function of the document, the candidate list
      and a pure acceptance predicate. A dotted candidate whose head names an object
      returns the nested search's outcome directly; later candidates are not tried. */
  function Search(doc: map<string, JVal>, fields: seq<string>, accept: (string, JVal) -> bool): (o: Outcome)
    decreases |fields|, if fields == [] then 0 else |fields[0]|
    ensures |o.calls| <= |fields|
    ensures o.found ==> o.calls != [] && Accepts(accept, o.LastCall())
    ensures forall i :: 0 <= i < |o.calls| && (i < |o.calls| - 1 || !o.found) ==> !Accepts(accept, o.calls[i])
  {
    if fields == [] then Outcome([], false)
    else
      var field := fields[0];
      match SplitFirstDot(field)
      case Some(parts) =>
        if parts.0 in doc && doc[parts.0].JObj? then Search(doc[parts.0].obj, [parts.1], accept)
        else Search(doc, fields[1..], accept)
      case None =>
        if field in doc then
          var h := Hit(field, doc[field]);
          if accept(h.key, h.val) then Outcome([h], true)
          else
            var o := Search(doc, fields[1..], accept);
            Outcome([h] + o.calls, o.found)
        else Search(doc, fields[1..], accept)
  }

  /** `searchJSON` as the loop it is: candidates in order, early return on acceptance,
      recursion for a dotted candidate whose head is an object. `calls` records the
      callback invocations the loop makes. */
  method SearchJSON(kvs: map<string, JVal>, fieldList: seq<string>, found: (string, JVal) -> bool)
    returns (ok: bool, calls: seq<Hit>)
    decreases |fieldList|, if fieldList == [] then 0 else |fieldList[0]|
    ensures ok == Search(kvs, fieldList, found).found
    ensures calls == Search(kvs, fieldList, found).calls
  {
    calls := [];
    var i := 0;
    while i < |fieldList|
      invariant 0 <= i <= |fieldList|
      invariant Search(kvs, fieldList, found).found == Search(kvs, fieldList[i..], found).found
      invariant Search(kvs, fieldList, found).calls == calls + Search(kvs, fieldList[i..], found).calls
    {
      var field := fieldList[i];
      ghost var todo := fieldList[i..];
      ghost var before := calls;
      ghost var next := Search(kvs, fieldList[i + 1..], found);
      SearchFrom(kvs, fieldList, found, i);
      match SplitFirstDot(field) {
        case Some(parts) =>
          var name, fieldKey := parts.0, parts.1;
          if name in kvs && kvs[name].JObj? {
            var subOk, subCalls := SearchJSON(kvs[name].obj, [fieldKey], found);
            return subOk, calls + subCalls;
          }
          assert Search(kvs, todo, found) == next;
        case None =>
          if field in kvs {
            var h := Hit(field, kvs[field]);
            if found(field, kvs[field]) {
              return true, calls + [h];
            }
            assert Search(kvs, todo, found) == Outcome([h] + next.calls, next.found);
            calls := calls + [h];
            assert calls + next.calls == before + ([h] + next.calls);
          } else {
            assert Search(kvs, todo, found) == next;
          }
      }
      i := i + 1;
    }
    ok := false;
  }

  /** One step of `Search` over the candidates from position `i` on. */
  lemma SearchFrom(kvs: map<string, JVal>, fields: seq<string>, found: (string, JVal) -> bool, i: int)
    requires 0 <= i < |fields|
    ensures var here := Search(kvs, fields[i..], found);
      var next := Search(kvs, fields[i + 1..], found);
      match SplitFirstDot(fields[i])
      case Some(parts) =>
        here == if parts.0 in kvs && kvs[parts.0].JObj? then Search(kvs[parts.0].obj, [parts.1], found) else next
      case None =>
        here == if fields[i] !in kvs then next
                else if found(fields[i], kvs[fields[i]]) then Outcome([Hit(fields[i], kvs[fields[i]])], true)
                else Outcome([Hit(fields[i], kvs[fields[i]])] + next.calls, next.found)
  {
    assert fields[i..][0] == fields[i] && fields[i..][1..] == fields[i + 1..];
  }

  /** `checkEachUntilFound`: true exactly when some candidate satisfies `found`. */
  method CheckEachUntilFound(fieldList: seq<string>, found: string -> bool) returns (r: bool)
    ensures r <==> exists i :: 0 <= i < |fieldList| && found(fieldList[i])
  {
    var i := 0;
    while i < |fieldList|
      invariant 0 <= i <= |fieldList|
      invariant forall j :: 0 <= j < i ==> !found(fieldList[j])
    {
      if found(fieldList[i]) {
        return true;
      }
      i := i + 1;
    }
    return false;
  }

  // ---------------------------------------------------------------------------
  // Where the values handed to the callback come from

  /** The value a candidate name addresses under the search's rules: a dotted name is
      always split on its first dot and descends into an object; an undotted name is a
      key of the (sub)document. */
  function Resolve(doc: map<string, JVal>, path: string): Option<JVal>
    decreases |path|
  {
    match SplitFirstDot(path)
    case Some(parts) =>
      if parts.0 in doc && doc[parts.0].JObj? then Resolve(doc[parts.0].obj, parts.1) else None
    case None =>
      if path in doc then Some(doc[path]) else None
  }

  /** The last segment of a dotted name: the key the callback is given. */
  function Leaf(path: string): string
    decreases |path|
  {
    match SplitFirstDot(path)
    case Some(parts) => Leaf(parts.1)
    case None => path
  }

  /** The callback only ever sees a key that exists in the (sub)document being scanned,
      with that key's value: each call is what one of the candidates resolves to. */
  lemma {:induction false} SearchCallsResolve(doc: map<string, JVal>, fields: seq<string>, accept: (string, JVal) -> bool)
    decreases |fields|, if fields == [] then 0 else |fields[0]|
    ensures forall h :: h in Search(doc, fields, accept).calls ==>
      exists f :: f in fields && Resolve(doc, f) == Some(h.val) && Leaf(f) == h.key
  {
    if fields != [] {
      var field := fields[0];
      match SplitFirstDot(field)
      case Some(parts) =>
        if parts.0 in doc && doc[parts.0].JObj? {
          SearchCallsResolve(doc[parts.0].obj, [parts.1], accept);
          forall h | h in Search(doc, fields, accept).calls
            ensures exists f :: f in fields && Resolve(doc, f) == Some(h.val) && Leaf(f) == h.key
          {
            assert Resolve(doc, field) == Resolve(doc[parts.0].obj, parts.1);
            assert Leaf(field) == Leaf(parts.1);
          }
        } else {
          SearchCallsResolve(doc, fields[1..], accept);
          forall h | h in Search(doc, fields, accept).calls
            ensures exists f :: f in fields && Resolve(doc, f) == Some(h.val) && Leaf(f) == h.key
          {
            var f :| f in fields[1..] && Resolve(doc, f) == Some(h.val) && Leaf(f) == h.key;
            assert f in fields;
          }
        }
      case None =>
        SearchCallsResolve(doc, fields[1..], accept);
        forall h | h in Search(doc, fields, accept).calls
          ensures exists f :: f in fields && Resolve(doc, f) == Some(h.val) && Leaf(f) == h.key
        {
          if field in doc && h == Hit(field, doc[field]) {
            assert Resolve(doc, field) == Some(h.val) && Leaf(field) == h.key;
          } else {
            var f :| f in fields[1..] && Resolve(doc, f) == Some(h.val) && Leaf(f) == h.key;
            assert f in fields;
          }
        }
    }
  }

  // ---------------------------------------------------------------------------
  // First match wins over undotted candidates

  predicate Undotted(fields: seq<string>) {
    forall i :: 0 <= i < |fields| ==> '.' !in fields[i]
  }

  /** Candidate `f` is present and the callback accepts its value. */
  predicate AcceptedAt(doc: map<string, JVal>, f: string, accept: (string, JVal) -> bool) {
    f in doc && accept(f, doc[f])
  }

  /** With undotted candidates the search succeeds exactly when some candidate is present
      and accepted, and it then stops at the first such candidate in list order. */
  lemma {:induction false} SearchUndotted(doc: map<string, JVal>, fields: seq<string>, accept: (string, JVal) -> bool)
    requires Undotted(fields)
    ensures var o := Search(doc, fields, accept);
      o.found <==> exists i :: 0 <= i < |fields| && AcceptedAt(doc, fields[i], accept)
    ensures var o := Search(doc, fields, accept);
      o.found ==> (exists i :: 0 <= i < |fields| && AcceptedAt(doc, fields[i], accept)
                     && (forall j :: 0 <= j < i ==> !AcceptedAt(doc, fields[j], accept))
                     && o.LastCall() == Hit(fields[i], doc[fields[i]]))
  {
    if fields != [] {
      var field := fields[0];
      assert '.' !in field;
      assert Undotted(fields[1..]) by {
        forall i | 0 <= i < |fields[1..]| ensures '.' !in fields[1..][i] {
          assert fields[1..][i] == fields[i + 1];
        }
      }
      SearchUndotted(doc, fields[1..], accept);
      var o := Search(doc, fields, accept);
      if AcceptedAt(doc, field, accept) {
        assert o.found && o.LastCall() == Hit(fields[0], doc[fields[0]]);
      } else {
        var o' := Search(doc, fields[1..], accept);
        assert o.found == o'.found;
        assert o'.found ==> o.LastCall() == o'.LastCall();
        if o.found {
          var i :| 0 <= i < |fields[1..]| && AcceptedAt(doc, fields[1..][i], accept)
            && (forall j :: 0 <= j < i ==> !AcceptedAt(doc, fields[1..][j], accept))
            && o'.LastCall() == Hit(fields[1..][i], doc[fields[1..][i]]);
          assert fields[1..][i] == fields[i + 1];
          forall j | 0 <= j < i + 1 ensures !AcceptedAt(doc, fields[j], accept) {
            if j > 0 { assert fields[j] == fields[1..][j - 1]; }
          }
        } else {
          forall i | 0 <= i < |fields| ensures !AcceptedAt(doc, fields[i], accept) {
            if i > 0 { assert fields[i] == fields[1..][i - 1]; }
          }
        }
      }
    }
  }

  // ---------------------------------------------------------------------------
  // Dotted candidates

  /** A dotted candidate `a.b` whose head names an object decides the search on its own:
      the outcome is the search for `b` inside that object, whatever candidates follow. */
  lemma DottedDescends(doc: map<string, JVal>, a: string, b: string, rest: seq<string>, accept: (string, JVal) -> bool)
    requires '.' !in a && a in doc && doc[a].JObj?
    ensures Search(doc, [a + "." + b] + rest, accept) == Search(doc[a].obj, [b], accept)
  {
    SplitJoined(a, b);
  }

  /** A dotted candidate `a.b` whose head is absent or not an object is passed over. */
  lemma DottedSkipped(doc: map<string, JVal>, a: string, b: string, rest: seq<string>, accept: (string, JVal) -> bool)
    requires '.' !in a && (a !in doc || !doc[a].JObj?)
    ensures Search(doc, [a + "." + b] + rest, accept) == Search(doc, rest, accept)
  {
    SplitJoined(a, b);
    assert ([a + "." + b] + rest)[1..] == rest;
  }

  // ---------------------------------------------------------------------------
  // Removal

  /** The value at a path of keys, descending through objects. */
  function GetPath(doc: map<string, JVal>, p: seq<string>): Option<JVal>
    requires p != []
    decreases |p|
  {
    if p[0] !in doc then None
    else if |p| == 1 then Some(doc[p[0]])
    else match doc[p[0]]
      case JObj(m) => GetPath(m, p[1..])
      case _ => None
  }

  predicate IsPrefix(p: seq<string>, q: seq<string>) {
    |p| <= |q| && q[..|p|] == p
  }

  /** The path `deleteJSONKey` removes: the key itself if it is a key of the document,
      otherwise the head before the first dot followed by the path of the rest inside
      the head's object. */
  function FindPath(doc: map<string, JVal>, key: string): (p: Option<seq<string>>)
    decreases |key|
    ensures p.Some? ==> p.value != [] && GetPath(doc, p.value).Some?
    ensures key in doc ==> p == Some([key])
  {
    if key in doc then Some([key])
    else match SplitFirstDot(key)
      case None => None
      case Some(parts) =>
        if parts.0 in doc && doc[parts.0].JObj? then
          match FindPath(doc[parts.0].obj, parts.1)
          case None => None
          case Some(q) =>
            assert ([parts.0] + q)[1..] == q;
            Some([parts.0] + q)
        else None
  }

  /** `deleteJSONKey`: removes the entry addressed by `key`. A root key is removed and
      nothing else changes; an unresolvable key leaves the document unchanged; otherwise
      exactly the nested entry is removed and every value off that path is unchanged. */
  function DeleteJSONKey(key: string, jsonData: map<string, JVal>): (r: map<string, JVal>)
    decreases |key|
    ensures key in jsonData ==> r == jsonData - {key}
    ensures key !in jsonData ==> r.Keys == jsonData.Keys
    ensures FindPath(jsonData, key).None? ==> r == jsonData
    ensures FindPath(jsonData, key).Some? ==> var p := FindPath(jsonData, key).value;
      GetPath(r, p).None?
      && (forall q :: q != [] && IsPrefix(q, p) && |q| < |p| ==> GetPath(r, q).Some? && GetPath(r, q).value.JObj?)
      && forall q :: q != [] && !IsPrefix(p, q) && !IsPrefix(q, p) ==> GetPath(r, q) == GetPath(jsonData, q)
  {
    if key in jsonData then
      var r := jsonData - {key};
      assert forall q :: q != [] && !IsPrefix([key], q) ==> GetPath(r, q) == GetPath(jsonData, q) by {
        forall q | q != [] && !IsPrefix([key], q) ensures GetPath(r, q) == GetPath(jsonData, q) {
          assert q[..1] == [q[0]];
        }
      }
      r
    else match SplitFirstDot(key)
      case None => jsonData
      case Some(parts) =>
        var k, v := parts.0, parts.1;
        if k in jsonData && jsonData[k].JObj? then
          var m := jsonData[k].obj;
          var m' := DeleteJSONKey(v, m);
          var r := jsonData[k := JObj(m')];
          if FindPath(m, v).Some? then
            var p := FindPath(jsonData, key).value;
            var pm := FindPath(m, v).value;
            assert p == [k] + pm;
            assert p[1..] == pm;
            assert GetPath(r, p) == GetPath(m', pm);
            assert forall q :: q != [] && !IsPrefix(p, q) && !IsPrefix(q, p) ==> GetPath(r, q) == GetPath(jsonData, q) by {
              forall q | q != [] && !IsPrefix(p, q) && !IsPrefix(q, p)
                ensures GetPath(r, q) == GetPath(jsonData, q)
              {
                NestedOffPath(jsonData, k, m', pm, q);
              }
            }
            assert forall q :: q != [] && IsPrefix(q, p) && |q| < |p| ==> GetPath(r, q).Some? && GetPath(r, q).value.JObj? by {
              forall q | q != [] && IsPrefix(q, p) && |q| < |p|
                ensures GetPath(r, q).Some? && GetPath(r, q).value.JObj?
              {
                NestedAncestor(jsonData, k, m', pm, q);
              }
            }
            r
          else
            assert m' == m;
            assert r == jsonData;
            r
        else jsonData
  }

  /** Replacing the object under `k` by one that agrees off the path `pm` leaves every
      path off `[k] + pm` unchanged. */
  lemma NestedOffPath(doc: map<string, JVal>, k: string, m': map<string, JVal>, pm: seq<string>, q: seq<string>)
    requires k in doc && doc[k].JObj? && pm != []
    requires forall q' :: q' != [] && !IsPrefix(pm, q') && !IsPrefix(q', pm) ==> GetPath(m', q') == GetPath(doc[k].obj, q')
    requires q != [] && !IsPrefix([k] + pm, q) && !IsPrefix(q, [k] + pm)
    ensures GetPath(doc[k := JObj(m')], q) == GetPath(doc, q)
  {
    var p := [k] + pm;
    if q[0] == k && |q| > 1 {
      var q' := q[1..];
      assert q == [k] + q';
      assert IsPrefix(pm, q') ==> IsPrefix(p, q);
      assert IsPrefix(q', pm) ==> IsPrefix(q, p);
    }
  }

  /** The ancestors of the path `[k] + pm` stay objects when the object under `k` is
      replaced by one in which the ancestors of `pm` are objects. */
  lemma NestedAncestor(doc: map<string, JVal>, k: string, m': map<string, JVal>, pm: seq<string>, q: seq<string>)
    requires k in doc && pm != []
    requires forall q' :: q' != [] && IsPrefix(q', pm) && |q'| < |pm| ==> GetPath(m', q').Some? && GetPath(m', q').value.JObj?
    requires q != [] && IsPrefix(q, [k] + pm) && |q| < |[k] + pm|
    ensures GetPath(doc[k := JObj(m')], q).Some? && GetPath(doc[k := JObj(m')], q).value.JObj?
  {
    assert q[0] == ([k] + pm)[0] == k;
    if |q| > 1 {
      var q' := q[1..];
      assert ([k] + pm)[..|q|][1..] == pm[..|q'|];
      assert IsPrefix(q', pm);
    }
  }
}
