/** A decoded JSON value and the dotted-name splitting used to address nested objects. */
module Json {
  import opened Wrappers

  /** The dynamic value `encoding/json` produces when decoding into `interface{}`:
      numbers are float64 (modelled as `real`), objects are maps, arrays are slices. */
  datatype JVal =
    | JNull
    | JBool(b: bool)
    | JNum(n: real)
    | JStr(s: string)
    | JObj(obj: map<string, JVal>)
    | JArr(elems: seq<JVal>)

  /** Position of the first '.' in `s`, or `|s|` when there is none. */
  function IndexOfDot(s: string): (i: nat)
    ensures i <= |s|
    ensures i < |s| ==> s[i] == '.'
    ensures forall j :: 0 <= j < i ==> s[j] != '.'
  {
    if s == [] then 0
    else if s[0] == '.' then 0
    else 1 + IndexOfDot(s[1..])
  }

  /** `strings.SplitN(s, ".", 2)`: `None` stands for the one-element result (no dot),
      `Some((head, rest))` for the two-element one. */
  function SplitFirstDot(s: string): (r: Option<(string, string)>)
    ensures r.None? <==> '.' !in s
    ensures r.Some? ==> s == r.value.0 + "." + r.value.1 && '.' !in r.value.0
    ensures r.Some? ==> |r.value.1| < |s|
  {
    var i := IndexOfDot(s);
    if i == |s| then None
    else
      assert s == s[..i] + "." + s[i + 1..];
      Some((s[..i], s[i + 1..]))
  }

  /** Splitting `a.b` where `a` has no dot gives back exactly `a` and `b`. */
  lemma SplitJoined(a: string, b: string)
    requires '.' !in a
    ensures SplitFirstDot(a + "." + b) == Some((a, b))
  {
    var s := a + "." + b;
    assert s[|a|] == '.';
    var r := SplitFirstDot(s);
    assert r.Some?;
    var h := r.value.0;
    assert |h| == |a|;
    assert h == s[..|a|] == a;
    assert r.value.1 == s[|a| + 1..] == b;
  }
}
