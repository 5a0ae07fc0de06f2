// The row logic of frontend/src/pages/AdminImport.jsx: header validation,
// row normalisation, classification into pending or invalid rows, the
// per-row status updates keyed by `__index`, the selection of rows to upload
// or retry, and the status counts. A parsed CSV row is the object Papa.parse
// produces, kept as its list of (key, value) pairs in key order.

module ImportRows {
  import opened JsValues

  const RequiredHeaders: seq<string> := ["student_id", "name", "email", "program", "year"]

  /** A plain object with string values, as its (key, value) pairs in insertion order. */
  type Obj = seq<(string, string)>

  /** A row as Papa.parse hands it over: a cell may be undefined or null. */
  type RawRow = seq<(string, Js<string>)>

  /** `String(h || '').trim().toLowerCase()`, the form in which headers are compared. */
  function Canon(h: string): (r: string)
    ensures |r| <= |h|
    ensures IsTrimmed(r)
    ensures forall i | 0 <= i < |r| :: !('A' <= r[i] <= 'Z')
  {
    var t := Trim(h);
    var r := Lower(t);
    assert r != [] ==> r[0] == LowerChar(t[0]) && r[|r| - 1] == LowerChar(t[|t| - 1]);
    r
  }

  /** A canonical name is its own canonical form. */
  lemma CanonIdempotent(h: string)
    ensures Canon(Canon(h)) == Canon(h)
  {
    var c := Canon(h);
    assert Trim(c) == c;
    assert Lower(c) == c;
  }

  predicate IsRequired(k: string) {
    k in RequiredHeaders
  }

  /** The first position holding `x`, as `indexOf` and `find` return it. */
  function FirstIndex(xs: seq<string>, x: string): (r: Option<nat>)
    ensures r.Some? ==> r.value < |xs| && xs[r.value] == x
    ensures r.Some? ==> forall j | 0 <= j < r.value :: xs[j] != x
    ensures r.None? ==> forall j | 0 <= j < |xs| :: xs[j] != x
  {
    if xs == [] then None
    else if xs[0] == x then Some(0)
    else
      var r := FirstIndex(xs[1..], x);
      if r.Some? then Some(r.value + 1) else None
  }

  /** Each name in canonical form. */
  function CanonAll(names: seq<string>): (r: seq<string>)
    ensures |r| == |names|
    ensures forall i | 0 <= i < |names| :: r[i] == Canon(names[i])
  {
    seq(|names|, i requires 0 <= i < |names| => Canon(names[i]))
  }

  // ----- validateHeaders -----

  function EveryIncluded(required: seq<string>, lower: seq<string>): (b: bool)
    ensures b <==> forall i | 0 <= i < |required| :: FirstIndex(lower, required[i]).Some?
  {
    if required == [] then true
    else
      var rest := EveryIncluded(required[1..], lower);
      assert rest <==> forall i | 1 <= i < |required| :: FirstIndex(lower, required[i]).Some? by {
        assert forall i | 1 <= i < |required| :: required[i] == required[1..][i - 1];
      }
      FirstIndex(lower, required[0]).Some? && rest
  }

  /** `REQUIRED_HEADERS.every(h => lower.includes(h))`: extra and reordered headers are accepted. */
  function ValidateHeaders(headers: seq<string>): (ok: bool)
    ensures ok <==> forall h | h in RequiredHeaders :: exists i | 0 <= i < |headers| :: Canon(headers[i]) == h
  {
    var lower := CanonAll(headers);
    var ok := EveryIncluded(RequiredHeaders, lower);
    assert ok <== forall h | h in RequiredHeaders :: exists i | 0 <= i < |headers| :: Canon(headers[i]) == h by {
      forall h | h in RequiredHeaders && exists i | 0 <= i < |headers| :: Canon(headers[i]) == h
        ensures FirstIndex(lower, h).Some?
      {
        var i :| 0 <= i < |headers| && Canon(headers[i]) == h;
        assert lower[i] == h;
      }
    }
    ok
  }

  // ----- normalizeRow -----

  function Keys(obj: Obj): (r: seq<string>)
    ensures |r| == |obj|
    ensures forall i | 0 <= i < |obj| :: r[i] == obj[i].0
  {
    seq(|obj|, i requires 0 <= i < |obj| => obj[i].0)
  }

  /** `obj[k] = v`: a new key goes at the end, an existing key keeps its place. */
  function Put(obj: Obj, k: string, v: string): (r: Obj)
    ensures FirstIndex(Keys(obj), k).Some? ==> r == obj[FirstIndex(Keys(obj), k).value := (k, v)]
    ensures FirstIndex(Keys(obj), k).None? ==> r == obj + [(k, v)]
  {
    var i := FirstIndex(Keys(obj), k);
    if i.Some? then obj[i.value := (k, v)] else obj + [(k, v)]
  }

  /** A cell's kept value: `undefined` and `null` become '', anything else is trimmed. */
  function CellText(v: Js<string>): (r: string)
    ensures IsTrimmed(r)
    ensures !v.Val? ==> r == ""
    ensures v.Val? ==> r == Trim(v.v)
  {
    if v.Val? then Trim(v.v) else ""
  }

  predicate DistinctKeys(obj: Obj) {
    forall i, j | 0 <= i < j < |obj| :: obj[i].0 != obj[j].0
  }

  predicate AllValuesTrimmed(obj: Obj) {
    forall i | 0 <= i < |obj| :: IsTrimmed(obj[i].1)
  }

  /** The object of trimmed keys and trimmed values that the first `forEach` builds. */
  function TrimmedObject(raw: RawRow): (obj: Obj)
    ensures DistinctKeys(obj) && AllValuesTrimmed(obj) && KeysTrimmed(obj)
    ensures |obj| <= |raw|
  {
    if raw == [] then []
    else
      var prev := TrimmedObject(raw[..|raw| - 1]);
      var k, v := Trim(raw[|raw| - 1].0), CellText(raw[|raw| - 1].1);
      PutKeepsTrimmedDistinct(prev, k, v);
      Put(prev, k, v)
  }

  lemma TrimmedObjectStep(raw: RawRow, i: nat)
    requires i < |raw|
    ensures TrimmedObject(raw[..i + 1]) == Put(TrimmedObject(raw[..i]), Trim(raw[i].0), CellText(raw[i].1))
  {
    assert raw[..i + 1][..i] == raw[..i];
  }

  /** The row's columns as (trimmed name, kept value) pairs, in column order. */
  function Columns(raw: RawRow): (cols: Obj)
    ensures |cols| == |raw|
    ensures forall i | 0 <= i < |raw| :: cols[i] == (Trim(raw[i].0), CellText(raw[i].1))
  {
    seq(|raw|, i requires 0 <= i < |raw| => (Trim(raw[i].0), CellText(raw[i].1)))
  }

  /** `obj[k] = v` for each pair of `cols` in turn, starting from `{}`. */
  function PutAll(cols: Obj): (obj: Obj)
    ensures DistinctKeys(obj)
  {
    if cols == [] then []
    else
      var prev := PutAll(cols[..|cols| - 1]);
      PutFacts(prev, cols[|cols| - 1].0, cols[|cols| - 1].1);
      Put(prev, cols[|cols| - 1].0, cols[|cols| - 1].1)
  }

  /** What `Put` does at each position of an object of distinct keys. */
  lemma PutFacts(obj: Obj, k: string, v: string)
    requires DistinctKeys(obj)
    ensures var r := Put(obj, k, v);
      && DistinctKeys(r)
      && |obj| <= |r|
      && k in Keys(r)
      && (forall j | 0 <= j < |obj| :: Keys(r)[j] == Keys(obj)[j])
      && (forall j | 0 <= j < |r| && r[j].0 == k :: r[j].1 == v)
      && (forall j | 0 <= j < |r| && r[j].0 != k :: j < |obj| && r[j] == obj[j])
  {
    var f := FirstIndex(Keys(obj), k);
    var r := Put(obj, k, v);
    if f.Some? {
      assert Keys(r)[f.value] == k;
    } else {
      assert Keys(r)[|obj|] == k;
    }
  }

  /** Every key put is a key of the result. */
  lemma {:induction false} PutAllHasEveryKey(cols: Obj)
    ensures forall i | 0 <= i < |cols| :: cols[i].0 in Keys(PutAll(cols))
  {
    if cols != [] {
      var n := |cols| - 1;
      var init := cols[..n];
      PutAllHasEveryKey(init);
      var prev := PutAll(init);
      PutFacts(prev, cols[n].0, cols[n].1);
      var obj := PutAll(cols);
      forall i | 0 <= i < n ensures cols[i].0 in Keys(obj) {
        assert cols[i] == init[i];
        var k :| 0 <= k < |prev| && Keys(prev)[k] == cols[i].0;
        assert Keys(obj)[k] == Keys(prev)[k];
      }
    }
  }

  /** Pair `i` is the last pair of `cols` whose key is `key`. */
  predicate LastWith(cols: Obj, key: string, i: int) {
    && 0 <= i < |cols| && cols[i].0 == key
    && forall j | i < j < |cols| :: cols[j].0 != key
  }

  /** Each key of the result holds the value of the last pair put under it. */
  lemma {:induction false} PutAllTakesLast(cols: Obj)
    ensures forall k | 0 <= k < |PutAll(cols)| ::
      exists i | LastWith(cols, PutAll(cols)[k].0, i) :: PutAll(cols)[k].1 == cols[i].1
  {
    if cols != [] {
      var n := |cols| - 1;
      var init := cols[..n];
      PutAllTakesLast(init);
      var prev := PutAll(init);
      PutFacts(prev, cols[n].0, cols[n].1);
      var obj := PutAll(cols);
      forall k | 0 <= k < |PutAll(cols)|
        ensures exists i | LastWith(cols, PutAll(cols)[k].0, i) :: PutAll(cols)[k].1 == cols[i].1
      {
        if obj[k].0 == cols[n].0 {
          assert LastWith(cols, obj[k].0, n);
        } else {
          assert k < |prev| && obj[k] == prev[k];
          var i :| LastWith(init, prev[k].0, i) && prev[k].1 == init[i].1;
          assert cols[i] == init[i];
          forall j | i < j < |cols| ensures cols[j].0 != prev[k].0 {
            if j < n { assert cols[j] == init[j]; }
          }
          assert LastWith(cols, obj[k].0, i);
        }
      }
    } else {
      assert PutAll(cols) == [];
    }
  }

  lemma {:induction false} TrimmedObjectIsPutAll(raw: RawRow)
    ensures TrimmedObject(raw) == PutAll(Columns(raw))
  {
    if raw != [] {
      var n := |raw| - 1;
      TrimmedObjectIsPutAll(raw[..n]);
      forall k | 0 <= k < n ensures Columns(raw)[..n][k] == Columns(raw[..n])[k] {
        assert raw[..n][k] == raw[k];
      }
      assert Columns(raw)[..n] == Columns(raw[..n]);
    }
  }

  /**
   * The trimmed object holds exactly the trimmed column names as keys, and
   * the value under each is the kept cell of the LAST column with that name
   * (a later duplicate overwrites an earlier one). Column `i` is
   * `Columns(raw)[i] == (Trim(raw[i].0), CellText(raw[i].1))`.
   */
  lemma TrimmedObjectFromRaw(raw: RawRow)
    ensures forall i | 0 <= i < |raw| :: Columns(raw)[i].0 in Keys(TrimmedObject(raw))
    ensures var obj, cols := TrimmedObject(raw), Columns(raw);
      forall k | 0 <= k < |obj| :: exists i | LastWith(cols, obj[k].0, i) :: obj[k].1 == cols[i].1
  {
    TrimmedObjectIsPutAll(raw);
    PutAllHasEveryKey(Columns(raw));
    PutAllTakesLast(Columns(raw));
  }

  predicate KeysTrimmed(obj: Obj) {
    forall i | 0 <= i < |obj| :: IsTrimmed(obj[i].0)
  }

  /** Putting a trimmed key and value into a trimmed object of distinct keys keeps it so. */
  lemma PutKeepsTrimmedDistinct(obj: Obj, k: string, v: string)
    requires DistinctKeys(obj) && AllValuesTrimmed(obj) && KeysTrimmed(obj)
    requires IsTrimmed(k) && IsTrimmed(v)
    ensures var r := Put(obj, k, v);
      DistinctKeys(r) && AllValuesTrimmed(r) && KeysTrimmed(r) && |r| <= |obj| + 1
  {
    assert FirstIndex(Keys(obj), k).None? ==> forall i | 0 <= i < |obj| :: obj[i].0 != k;
  }

  /** The first key of `obj` that names header `h` case-insensitively (`Object.keys(obj).find`). */
  function FindHeader(obj: Obj, h: string): (r: Option<nat>)
    ensures r.Some? ==> r.value < |obj| && Canon(obj[r.value].0) == h
    ensures r.Some? ==> forall j | 0 <= j < r.value :: Canon(obj[j].0) != h
    ensures r.None? ==> forall j | 0 <= j < |obj| :: Canon(obj[j].0) != h
  {
    var names := CanonAll(Keys(obj));
    FirstIndex(names, h)
  }

  /** `normalized[h] = foundKey ? obj[foundKey] : ''`. */
  function HeaderValue(obj: Obj, h: string): string {
    var i := FindHeader(obj, h);
    if i.Some? then obj[i.value].1 else ""
  }

  /**
   * The value read for header `h` is that of the first key whose canonical
   * form is `h`, and '' when no key names it.
   */
  lemma HeaderValueFound(obj: Obj, h: string)
    ensures (forall i | 0 <= i < |obj| :: Canon(obj[i].0) != h) ==> HeaderValue(obj, h) == ""
    ensures (exists i | 0 <= i < |obj| :: Canon(obj[i].0) == h) ==>
      exists i | 0 <= i < |obj| && Canon(obj[i].0) == h ::
        HeaderValue(obj, h) == obj[i].1 && forall j | 0 <= j < i :: Canon(obj[j].0) != h
  {
  }

  /** `normalized[h] = ...` for each `h` of `hs` in turn. */
  function Pick(obj: Obj, hs: seq<string>): (m: map<string, string>)
    ensures forall h | h in hs :: h in m && m[h] == HeaderValue(obj, h)
  {
    if hs == [] then map[]
    else
      var m := Pick(obj, hs[..|hs| - 1])[hs[|hs| - 1] := HeaderValue(obj, hs[|hs| - 1])];
      assert forall h | h in hs :: h == hs[|hs| - 1] || h in hs[..|hs| - 1];
      m
  }

  lemma PickStep(obj: Obj, hs: seq<string>, n: nat)
    requires n < |hs|
    ensures Pick(obj, hs[..n + 1]) == Pick(obj, hs[..n])[hs[n] := HeaderValue(obj, hs[n])]
  {
    assert hs[..n + 1][..n] == hs[..n];
  }

  lemma {:induction false} PickKeys(obj: Obj, hs: seq<string>)
    ensures Pick(obj, hs).Keys == set h | h in hs
  {
    if hs != [] {
      PickKeys(obj, hs[..|hs| - 1]);
      assert hs == hs[..|hs| - 1] + [hs[|hs| - 1]];
    }
  }

  /** `normalized`: exactly the five required keys, each read through `FindHeader`. */
  function NormalizedOf(obj: Obj): (m: map<string, string>)
    ensures m.Keys == set h | h in RequiredHeaders
    ensures forall h | h in RequiredHeaders :: m[h] == HeaderValue(obj, h)
  {
    PickKeys(obj, RequiredHeaders);
    Pick(obj, RequiredHeaders)
  }

  /** `extras`: the columns whose canonical name is not a required header, in order. */
  function ExtrasOf(obj: Obj): (r: Obj)
    ensures forall p | p in r :: p in obj && !IsRequired(Canon(p.0))
    ensures forall p | p in obj && !IsRequired(Canon(p.0)) :: p in r
    ensures |r| <= |obj|
  {
    if obj == [] then []
    else
      var init, last := obj[..|obj| - 1], obj[|obj| - 1];
      assert obj == init + [last];
      var rest := ExtrasOf(init);
      if IsRequired(Canon(last.0)) then rest else rest + [last]
  }

  /** Dropping columns keeps the keys distinct. */
  lemma {:induction false} ExtrasKeepDistinctKeys(obj: Obj)
    requires DistinctKeys(obj)
    ensures DistinctKeys(ExtrasOf(obj))
  {
    if obj != [] {
      var n := |obj| - 1;
      DistinctSplit(obj);
      ExtrasKeepDistinctKeys(obj[..n]);
      if !IsRequired(Canon(obj[n].0)) {
        var rest := ExtrasOf(obj[..n]);
        assert forall p | p in rest :: p.0 != obj[n].0;
        SnocKeepsDistinct(rest, obj[n]);
      }
    }
  }

  /** The keys before the last one are distinct and all differ from the last. */
  lemma DistinctSplit(obj: Obj)
    requires obj != [] && DistinctKeys(obj)
    ensures DistinctKeys(obj[..|obj| - 1])
    ensures forall p | p in obj[..|obj| - 1] :: p.0 != obj[|obj| - 1].0
  {
    var init := obj[..|obj| - 1];
    forall p | p in init ensures p.0 != obj[|obj| - 1].0 {
      var j :| 0 <= j < |init| && init[j] == p;
      assert obj[j] == p;
    }
  }

  lemma SnocKeepsDistinct(obj: Obj, p: (string, string))
    requires DistinctKeys(obj) && forall q | q in obj :: q.0 != p.0
    ensures DistinctKeys(obj + [p])
  {
    forall i, j | 0 <= i < j < |obj| + 1 ensures (obj + [p])[i].0 != (obj + [p])[j].0 {
      if j == |obj| {
        assert obj[i] in obj;
      }
    }
  }

  datatype Normalized = Normalized(normalized: map<string, string>, extras: Obj, raw: Obj)

  /** `normalizeRow`: the trimmed object, then the five required fields, then the extras. */
  method NormalizeRow(raw: RawRow) returns (r: Normalized)
    ensures r.raw == TrimmedObject(raw)
    ensures r.normalized == NormalizedOf(r.raw)
    ensures r.extras == ExtrasOf(r.raw)
  {
    var obj := TrimKeysAndValues(raw);
    var normalized := PickRequired(obj);
    var extras := CollectExtras(obj);
    r := Normalized(normalized, extras, obj);
  }

  /** The first `forEach` of `normalizeRow`. */
  method TrimKeysAndValues(raw: RawRow) returns (obj: Obj)
    ensures obj == TrimmedObject(raw)
  {
    obj := [];
    var i := 0;
    while i < |raw|
      invariant 0 <= i <= |raw|
      invariant obj == TrimmedObject(raw[..i])
    {
      TrimmedObjectStep(raw, i);
      obj := Put(obj, Trim(raw[i].0), CellText(raw[i].1));
      i := i + 1;
    }
    assert raw[..|raw|] == raw;
  }

  /** The `for (const h of REQUIRED_HEADERS)` loop of `normalizeRow`. */
  method PickRequired(obj: Obj) returns (normalized: map<string, string>)
    ensures normalized == NormalizedOf(obj)
  {
    normalized := PickEach(obj, RequiredHeaders);
  }

  method PickEach(obj: Obj, hs: seq<string>) returns (normalized: map<string, string>)
    ensures normalized == Pick(obj, hs)
  {
    normalized := map[];
    var n := 0;
    while n < |hs|
      invariant 0 <= n <= |hs|
      invariant normalized == Pick(obj, hs[..n])
    {
      PickStep(obj, hs, n);
      normalized := normalized[hs[n] := HeaderValue(obj, hs[n])];
      n := n + 1;
    }
    assert hs[..n] == hs;
  }

  /** The second `forEach` of `normalizeRow`. */
  method CollectExtras(obj: Obj) returns (extras: Obj)
    ensures extras == ExtrasOf(obj)
  {
    extras := [];
    var e := 0;
    while e < |obj|
      invariant 0 <= e <= |obj|
      invariant extras == ExtrasOf(obj[..e])
    {
      assert obj[..e + 1][..e] == obj[..e];
      if !IsRequired(Canon(obj[e].0)) {
        extras := extras + [obj[e]];
      }
      e := e + 1;
    }
    assert obj[..|obj|] == obj;
  }

  /** Every value `normalizeRow` keeps is trimmed; missing columns read as ''. */
  lemma NormalizedValuesTrimmed(raw: RawRow)
    ensures var obj := TrimmedObject(raw);
      && AllValuesTrimmed(obj)
      && (forall h | h in RequiredHeaders :: IsTrimmed(NormalizedOf(obj)[h]))
      && AllValuesTrimmed(ExtrasOf(obj))
      && (forall h | h in RequiredHeaders && FindHeader(obj, h).None? :: NormalizedOf(obj)[h] == "")
  {
    var obj := TrimmedObject(raw);
    forall i | 0 <= i < |ExtrasOf(obj)| ensures IsTrimmed(ExtrasOf(obj)[i].1) {
      var p := ExtrasOf(obj)[i];
      assert p in obj;
    }
  }

  /**
   * A column is either the source of some required field or an extra, never
   * both: an extra's name never canonicalises to a required header, so
   * spreading `extras` over the five fields cannot overwrite them.
   */
  lemma ExtrasNeverShadowRequired(raw: RawRow)
    ensures var obj := TrimmedObject(raw);
      forall p | p in ExtrasOf(obj) :: !IsRequired(Canon(p.0)) && !IsRequired(p.0)
  {
    var obj := TrimmedObject(raw);
    forall p | p in ExtrasOf(obj) ensures !IsRequired(p.0) {
      assert p in obj;
      CanonOfRequired(p.0);
    }
  }

  /** A name made of lower-case ASCII letters and '_' is its own canonical form. */
  lemma CanonOfLowerName(k: string)
    requires forall i | 0 <= i < |k| :: 'a' <= k[i] <= 'z' || k[i] == '_'
    ensures Canon(k) == k
  {
    assert IsTrimmed(k);
    assert Lower(k) == k;
  }

  /** The required names are trimmed and lower case already, so they are their own canonical form. */
  lemma CanonOfRequired(k: string)
    ensures IsRequired(k) ==> Canon(k) == k
  {
    if IsRequired(k) {
      CanonOfLowerName(k);
    }
  }

  // ----- the upload payload -----

  /** `{ ...m, ...extras }`: each extra column in turn overwrites or adds its key. */
  function Spread(m: map<string, string>, extras: Obj): (r: map<string, string>)
    ensures forall k | k in m && (forall p | p in extras :: p.0 != k) :: k in r && r[k] == m[k]
    ensures forall p | p in extras :: p.0 in r
    ensures DistinctKeys(extras) ==> forall p | p in extras :: r[p.0] == p.1
    ensures forall k | k in r :: k in m || exists p | p in extras :: p.0 == k
    decreases |extras|
  {
    if extras == [] then m
    else
      assert extras == [extras[0]] + extras[1..];
      Spread(m[extras[0].0 := extras[0].1], extras[1..])
  }

  /** The body posted for a row: its five fields, then its extra columns. */
  function Payload(data: map<string, string>, extras: Obj): (r: map<string, string>)
    ensures forall h | h in RequiredHeaders && h in data && (forall e | e in extras :: e.0 != h) :: h in r && r[h] == data[h]
    ensures forall e | e in extras :: e.0 in r
    ensures DistinctKeys(extras) ==> forall e | e in extras :: r[e.0] == e.1
    ensures forall k | k in r :: (k in RequiredHeaders && k in data) || exists e | e in extras :: e.0 == k
  {
    Spread(map h | h in RequiredHeaders && h in data :: data[h], extras)
  }

  /**
   * The payload of a parsed row carries its five normalised fields unchanged
   * and every extra column with its value: no extra column can overwrite a
   * required field.
   */
  lemma PayloadCarriesRow(raw: RawRow)
    ensures var obj := TrimmedObject(raw);
      var p := Payload(NormalizedOf(obj), ExtrasOf(obj));
      && (forall h | h in RequiredHeaders :: h in p && p[h] == NormalizedOf(obj)[h])
      && (forall e | e in ExtrasOf(obj) :: e.0 in p && p[e.0] == e.1)
      && (forall k | k in p :: IsRequired(k) || exists e | e in ExtrasOf(obj) :: e.0 == k)
  {
    var obj := TrimmedObject(raw);
    var data := NormalizedOf(obj);
    var extras := ExtrasOf(obj);
    var base := map h | h in RequiredHeaders && h in data :: data[h];
    ExtrasNeverShadowRequired(raw);
    ExtrasKeepDistinctKeys(obj);
    assert forall h | h in RequiredHeaders :: h in base && base[h] == data[h];
    assert forall k | k in base :: IsRequired(k);
  }

  // ----- classification in handleParse -----

  datatype RowStatus = Pending | Invalid | Uploading | Succeeded | Error

  datatype Row = Row(
    index: nat,
    raw: Obj,
    data: map<string, string>,
    extras: Obj,
    status: RowStatus,
    errors: seq<string>,
    serverError: Option<string>)

  /** The required fields whose value is empty after trimming, in the order of `REQUIRED_HEADERS`. */
  function Missing(required: seq<string>, data: map<string, string>): (r: seq<string>)
    requires forall h | h in required :: h in data
    ensures forall h | h in r :: h in required && Trim(data[h]) == ""
    ensures forall h | h in required && Trim(data[h]) == "" :: h in r
  {
    if required == [] then []
    else
      var rest := Missing(required[1..], data);
      if Trim(data[required[0]]) == "" then [required[0]] + rest else rest
  }

  /** `r` is `xs` with some elements left out, the others kept in order. */
  predicate IsSubsequence(r: seq<string>, xs: seq<string>)
    decreases |xs|
  {
    if r == [] then true
    else if xs == [] then false
    else (r[0] == xs[0] && IsSubsequence(r[1..], xs[1..])) || IsSubsequence(r, xs[1..])
  }

  /** The missing fields are the required fields left in their order, the present ones dropped. */
  lemma {:induction false} MissingKeepsOrder(required: seq<string>, data: map<string, string>)
    requires forall h | h in required :: h in data
    ensures IsSubsequence(Missing(required, data), required)
  {
    if required != [] {
      var tail := required[1..];
      MissingKeepsOrder(tail, data);
      var r := Missing(required, data);
      if Trim(data[required[0]]) == "" {
        assert r[1..] == Missing(tail, data);
      }
    }
  }

  /** `parts.join(sep)`: starts with the first part, followed by the separator when more come. */
  function Join(parts: seq<string>, sep: string): (r: string)
    ensures parts == [] ==> r == ""
    ensures parts != [] ==> parts[0] <= r
    ensures |parts| > 1 ==> parts[0] + sep <= r
  {
    if parts == [] then ""
    else if |parts| == 1 then parts[0]
    else parts[0] + sep + Join(parts[1..], sep)
  }

  /** Joining one more part appends the separator and that part. */
  lemma {:induction false} JoinSnoc(parts: seq<string>, x: string, sep: string)
    requires parts != []
    ensures Join(parts + [x], sep) == Join(parts, sep) + sep + x
  {
    if |parts| > 1 {
      assert (parts + [x])[1..] == parts[1..] + [x];
      JoinSnoc(parts[1..], x, sep);
    }
  }

  predicate NoSpace(s: string) {
    forall k | 0 <= k < |s| :: !IsSpace(s[k])
  }

  /** `/^\S+@\S+\.\S+$/.test(e)`, by positions: an '@' after one character, later a '.' with characters on both sides. */
  predicate MatchesEmail(e: string)
    ensures MatchesEmail(e) ==> |e| >= 5 && '@' in e && '.' in e
  {
    && NoSpace(e)
    && exists i, j | 1 <= i && i + 2 <= j && j + 1 < |e| :: e[i] == '@' && e[j] == '.'
  }

  /** The same pattern read as the regex reads it: three non-empty runs of non-space characters. */
  ghost predicate EmailShape(e: string) {
    exists a, b, c | NoSpace(a) && NoSpace(b) && NoSpace(c) && a != [] && b != [] && c != [] ::
      e == a + "@" + b + "." + c
  }

  lemma MatchesEmailIffShape(e: string)
    ensures MatchesEmail(e) <==> EmailShape(e)
  {
    if MatchesEmail(e) {
      var i, j :| 1 <= i && i + 2 <= j && j + 1 < |e| && e[i] == '@' && e[j] == '.';
      var a, b, c := e[..i], e[i + 1..j], e[j + 1..];
      assert e == a + "@" + b + "." + c;
      assert NoSpace(a) && NoSpace(b) && NoSpace(c);
    }
    if EmailShape(e) {
      var a, b, c :| NoSpace(a) && NoSpace(b) && NoSpace(c) && a != [] && b != [] && c != [] &&
        e == a + "@" + b + "." + c;
      var i, j := |a|, |a| + 1 + |b|;
      assert e[i] == '@' && e[j] == '.';
      forall k | 0 <= k < |e| ensures !IsSpace(e[k]) {
        if k < i { assert e[k] == a[k]; }
        else if i < k < j { assert e[k] == b[k - i - 1]; }
        else if k > j { assert e[k] == c[k - j - 1]; }
      }
    }
  }

  const InvalidEmail: string := "Invalid email"

  /** The classification of a normalised row: its status and its messages. */
  function Verdict(data: map<string, string>): (v: (RowStatus, seq<string>))
    requires forall h | h in RequiredHeaders :: h in data
    ensures v.0 == Invalid <==> exists h | h in RequiredHeaders :: Trim(data[h]) == ""
    ensures v.0 == Pending <==> forall h | h in RequiredHeaders :: Trim(data[h]) != ""
    ensures v.0 == Invalid ==> v.1 != [] && v.1[0] == "Missing: " + Join(Missing(RequiredHeaders, data), ", ")
    ensures v.0 == Pending ==> (v.1 == [] <==> MatchesEmail(data["email"]))
    ensures v.0 == Pending ==> (v.1 == [InvalidEmail] <==> !MatchesEmail(data["email"]))
    ensures InvalidEmail in v.1 <==> data["email"] != "" && !MatchesEmail(data["email"])
    ensures v.0 == Invalid ==>
      v.1 == ["Missing: " + Join(Missing(RequiredHeaders, data), ", ")]
           + (if data["email"] != "" && !MatchesEmail(data["email"]) then [InvalidEmail] else [])
    ensures |v.1| <= 2
  {
    var missing := Missing(RequiredHeaders, data);
    var emailInvalid := data["email"] != "" && !MatchesEmail(data["email"]);
    var status := if |missing| > 0 then Invalid else Pending;
    var errors := (if |missing| > 0 then ["Missing: " + Join(missing, ", ")] else [])
                + (if emailInvalid then [InvalidEmail] else []);
    assert |missing| > 0 ==> missing[0] in missing;
    assert ("Missing: " + Join(missing, ", "))[0] == 'M';
    assert status == Pending ==> Trim(data["email"]) != "";
    (status, errors)
  }

  /** One parsed row: the normalised fields and the verdict on them, with no server error yet. */
  function ClassifyRow(index: nat, raw: RawRow): (row: Row)
    ensures row.index == index && row.serverError == None
    ensures row.raw == TrimmedObject(raw)
    ensures row.data == NormalizedOf(row.raw) && row.extras == ExtrasOf(row.raw)
    ensures (row.status, row.errors) == Verdict(row.data)
  {
    var obj := TrimmedObject(raw);
    var data := NormalizedOf(obj);
    var v := Verdict(data);
    Row(index, obj, data, ExtrasOf(obj), v.0, v.1, None)
  }

  /** `result.data.map((rawRow, idx) => ...)`: row `i` carries `__index` i. */
  function ParseRows(data: seq<RawRow>): (rows: seq<Row>)
    ensures |rows| == |data|
    ensures forall i | 0 <= i < |rows| :: rows[i].index == i && rows[i] == ClassifyRow(i, data[i])
    ensures UniqueIndices(rows)
  {
    seq(|data|, i requires 0 <= i < |data| => ClassifyRow(i, data[i]))
  }

  // ----- row selection and per-row updates -----

  /** Start Import: the rows whose status is 'pending' or 'error', in order. */
  function SelectForImport(rows: seq<Row>): (r: seq<Row>)
    ensures forall x | x in r :: x in rows && (x.status == Pending || x.status == Error)
    ensures forall x | x in rows && (x.status == Pending || x.status == Error) :: x in r
    ensures |r| <= |rows|
  {
    if rows == [] then []
    else
      assert rows == [rows[0]] + rows[1..];
      var rest := SelectForImport(rows[1..]);
      if rows[0].status == Pending || rows[0].status == Error then [rows[0]] + rest else rest
  }

  /** Retry Failed: the rows whose status is 'error', in order. */
  function SelectForRetry(rows: seq<Row>): (r: seq<Row>)
    ensures forall x | x in r :: x in rows && x.status == Error
    ensures forall x | x in rows && x.status == Error :: x in r
    ensures |r| <= |rows|
  {
    if rows == [] then []
    else
      assert rows == [rows[0]] + rows[1..];
      var rest := SelectForRetry(rows[1..]);
      if rows[0].status == Error then [rows[0]] + rest else rest
  }

  /** What a `setRows` updater does to the row it finds. */
  datatype Mark = MarkUploading | MarkSuccess | MarkError(message: string)

  function ApplyMark(row: Row, m: Mark): (r: Row)
    ensures r.index == row.index && r.data == row.data && r.extras == row.extras && r.raw == row.raw
  {
    match m
    case MarkUploading => row.(status := Uploading)
    case MarkSuccess => row.(status := Succeeded, serverError := None)
    case MarkError(msg) => row.(status := Error, serverError := Some(msg), errors := row.errors + [msg])
  }

  function FirstWithIndex(rows: seq<Row>, index: nat): (r: Option<nat>)
    ensures r.Some? ==> r.value < |rows| && rows[r.value].index == index
    ensures r.Some? ==> forall j | 0 <= j < r.value :: rows[j].index != index
    ensures r.None? ==> forall j | 0 <= j < |rows| :: rows[j].index != index
  {
    if rows == [] then None
    else if rows[0].index == index then Some(0)
    else
      var r := FirstWithIndex(rows[1..], index);
      if r.Some? then Some(r.value + 1) else None
  }

  /** `copy.find(r => r.__index === index)` then the update: only that row changes. */
  function UpdateRow(rows: seq<Row>, index: nat, m: Mark): (r: seq<Row>)
    ensures |r| == |rows|
    ensures forall k | 0 <= k < |rows| :: r[k].index == rows[k].index
    ensures forall k | 0 <= k < |rows| && rows[k].index != index :: r[k] == rows[k]
    ensures FirstWithIndex(rows, index).Some? ==>
      var k := FirstWithIndex(rows, index).value; r[k] == ApplyMark(rows[k], m)
    ensures FirstWithIndex(rows, index).None? ==> r == rows
  {
    var k := FirstWithIndex(rows, index);
    if k.Some? then rows[k.value := ApplyMark(rows[k.value], m)] else rows
  }

  predicate UniqueIndices(rows: seq<Row>) {
    forall i, j | 0 <= i < j < |rows| :: rows[i].index != rows[j].index
  }

  /** With distinct indices the update reaches exactly the row carrying the index. */
  lemma MarkOnlyItsRow(rows: seq<Row>, k: nat, m: Mark)
    requires UniqueIndices(rows) && k < |rows|
    ensures var r := UpdateRow(rows, rows[k].index, m);
      && r[k] == ApplyMark(rows[k], m)
      && (forall j | 0 <= j < |rows| && j != k :: r[j] == rows[j])
  {
    var f := FirstWithIndex(rows, rows[k].index);
    assert f == Some(k);
  }

  /** Two lists with the same indices, position by position, find an index at the same place. */
  lemma {:induction false} FirstWithIndexSameIndices(a: seq<Row>, b: seq<Row>, index: nat)
    requires |a| == |b| && forall k | 0 <= k < |a| :: a[k].index == b[k].index
    ensures FirstWithIndex(a, index) == FirstWithIndex(b, index)
  {
    if a != [] && a[0].index != index {
      FirstWithIndexSameIndices(a[1..], b[1..], index);
    }
  }

  /** Searching a batch with one more row at the end. */
  lemma {:induction false} FirstWithIndexSnoc(b: seq<Row>, x: Row, index: nat)
    ensures FirstWithIndex(b + [x], index) ==
      if FirstWithIndex(b, index).Some? then FirstWithIndex(b, index)
      else if x.index == index then Some(|b|) else None
  {
    if b != [] {
      assert (b + [x])[1..] == b[1..] + [x];
      FirstWithIndexSnoc(b[1..], x, index);
    }
  }

  /** Filtering keeps indices distinct. */
  lemma {:induction false} SelectionKeepsIndicesUnique(rows: seq<Row>)
    requires UniqueIndices(rows)
    ensures UniqueIndices(SelectForImport(rows)) && UniqueIndices(SelectForRetry(rows))
  {
    if rows != [] {
      UniqueSplit(rows);
      SelectionKeepsIndicesUnique(rows[1..]);
      ConsKeepsUnique(rows[0], SelectForImport(rows[1..]));
      ConsKeepsUnique(rows[0], SelectForRetry(rows[1..]));
    }
  }

  /** The rows after the first have distinct indices, all different from the first's. */
  lemma UniqueSplit(rows: seq<Row>)
    requires rows != [] && UniqueIndices(rows)
    ensures UniqueIndices(rows[1..])
    ensures forall x | x in rows[1..] :: x.index != rows[0].index
  {
    forall x | x in rows[1..] ensures x.index != rows[0].index {
      var j :| 0 <= j < |rows[1..]| && rows[1..][j] == x;
      assert rows[j + 1] == x;
    }
  }

  lemma ConsKeepsUnique(x: Row, rows: seq<Row>)
    requires UniqueIndices(rows) && forall y | y in rows :: y.index != x.index
    ensures UniqueIndices([x] + rows)
  {
    forall i, j | 0 <= i < j < |rows| + 1 ensures ([x] + rows)[i].index != ([x] + rows)[j].index {
      if i == 0 {
        assert rows[j - 1] in rows;
      }
    }
  }

  // ----- uploadRows -----

  const NetworkError: string := "Network/Error"

  /** How `api.post('/students', payload)` settled: created, or thrown with what the error carried. */
  datatype UploadOutcome = Created | Rejected(responseError: Js<string>, message: Js<string>)

  /** `err?.response?.data?.error || err?.message || 'Network/Error'`: never empty. */
  function FailureMessage(responseError: Js<string>, message: Js<string>): (msg: string)
    ensures msg != ""
    ensures TruthyStr(responseError) ==> msg == responseError.v
    ensures !TruthyStr(responseError) ==> msg == StrOr(message, NetworkError)
  {
    StrOr(responseError, StrOr(message, NetworkError))
  }

  function OutcomeMark(o: UploadOutcome): Mark {
    match o
    case Created => MarkSuccess
    case Rejected(re, m) => MarkError(FailureMessage(re, m))
  }

  /** A row once its upload has settled: success with no server error, or error with the message appended. */
  function Settled(row: Row, o: UploadOutcome): (r: Row)
    ensures r.index == row.index && r.data == row.data && r.extras == row.extras && r.raw == row.raw
    ensures o.Created? ==> r.status == Succeeded && r.serverError == None && r.errors == row.errors
    ensures o.Rejected? ==>
      var msg := FailureMessage(o.responseError, o.message);
      r.status == Error && r.serverError == Some(msg) && r.errors == row.errors + [msg]
  {
    ApplyMark(ApplyMark(row, MarkUploading), OutcomeMark(o))
  }

  /** One worker iteration: mark the row uploading, then record how its upload settled. */
  function UploadStep(rows: seq<Row>, row: Row, o: UploadOutcome): (r: seq<Row>)
    ensures |r| == |rows|
    ensures forall k | 0 <= k < |rows| :: r[k].index == rows[k].index
    ensures forall k | 0 <= k < |rows| && rows[k].index != row.index :: r[k] == rows[k]
    ensures FirstWithIndex(rows, row.index).Some? ==>
      var k := FirstWithIndex(rows, row.index).value; r[k] == Settled(rows[k], o)
    ensures FirstWithIndex(rows, row.index).None? ==> r == rows
  {
    var marked := UpdateRow(rows, row.index, MarkUploading);
    FirstWithIndexSameIndices(rows, marked, row.index);
    UpdateRow(marked, row.index, OutcomeMark(o))
  }

  /** The rows after every row of the batch has been taken by a worker and has settled. */
  function UploadAll(rows: seq<Row>, batch: seq<Row>, outcomes: seq<UploadOutcome>): (r: seq<Row>)
    requires |batch| == |outcomes|
    ensures |r| == |rows|
  {
    if batch == [] then rows
    else
      var n := |batch| - 1;
      UploadStep(UploadAll(rows, batch[..n], outcomes[..n]), batch[n], outcomes[n])
  }

  /** The batch up to row `i` inclusive is the batch up to `i` followed by one more step. */
  lemma UploadAllStep(rows: seq<Row>, batch: seq<Row>, outcomes: seq<UploadOutcome>, i: nat)
    requires |batch| == |outcomes| && i < |batch|
    ensures UploadAll(rows, batch[..i + 1], outcomes[..i + 1])
         == UploadStep(UploadAll(rows, batch[..i], outcomes[..i]), batch[i], outcomes[i])
  {
    assert batch[..i + 1][..i] == batch[..i] && outcomes[..i + 1][..i] == outcomes[..i];
  }

  /** Uploads change no row's index. */
  lemma {:induction false} UploadAllKeepsIndices(rows: seq<Row>, batch: seq<Row>, outcomes: seq<UploadOutcome>)
    requires |batch| == |outcomes|
    ensures forall k | 0 <= k < |rows| :: UploadAll(rows, batch, outcomes)[k].index == rows[k].index
  {
    if batch != [] {
      var n := |batch| - 1;
      UploadAllKeepsIndices(rows, batch[..n], outcomes[..n]);
    }
  }

  /** What a batch makes of one row: settled by its own outcome when the batch holds it, unchanged otherwise. */
  function AfterBatch(row: Row, batch: seq<Row>, outcomes: seq<UploadOutcome>): Row
    requires |batch| == |outcomes|
  {
    var j := FirstWithIndex(batch, row.index);
    if j.Some? then Settled(row, outcomes[j.value]) else row
  }

  /**
   * Every row of the batch ends settled by its own outcome and every other
   * row is untouched, so the result does not depend on which worker took
   * which row or in which order the uploads settled.
   */
  lemma {:induction false} UploadAllSettlesEachRow(rows: seq<Row>, batch: seq<Row>, outcomes: seq<UploadOutcome>)
    requires |batch| == |outcomes| && UniqueIndices(rows) && UniqueIndices(batch)
    ensures forall k | 0 <= k < |rows| :: UploadAll(rows, batch, outcomes)[k] == AfterBatch(rows[k], batch, outcomes)
  {
    if batch != [] {
      var n := |batch| - 1;
      var b, o, last := batch[..n], outcomes[..n], batch[n];
      assert batch == b + [last];
      UploadAllSettlesEachRow(rows, b, o);
      UploadAllKeepsIndices(rows, b, o);
      var prev := UploadAll(rows, b, o);
      var mid := UpdateRow(prev, last.index, MarkUploading);
      var r := UpdateRow(mid, last.index, OutcomeMark(outcomes[n]));
      assert UniqueIndices(prev);
      FirstWithIndexSameIndices(prev, mid, last.index);
      forall k | 0 <= k < |rows| ensures r[k] == AfterBatch(rows[k], batch, outcomes) {
        FirstWithIndexSnoc(b, last, rows[k].index);
        if rows[k].index == last.index {
          assert FirstWithIndex(b, last.index).None?;
          MarkOnlyItsRow(prev, k, MarkUploading);
          MarkOnlyItsRow(mid, k, OutcomeMark(outcomes[n]));
        }
      }
    }
  }

  /**
   * After an import of the rows Start Import selects, a row is in error
   * exactly when its own upload was rejected: Retry Failed then takes exactly
   * the rejected rows.
   */
  lemma ImportLeavesErrorsExactlyAtRejections(rows: seq<Row>, outcomes: seq<UploadOutcome>)
    requires UniqueIndices(rows) && |outcomes| == |SelectForImport(rows)|
    ensures var batch := SelectForImport(rows);
      var r := UploadAll(rows, batch, outcomes);
      forall k | 0 <= k < |rows| ::
        r[k].status == Error <==>
          exists j | 0 <= j < |batch| :: batch[j].index == rows[k].index && outcomes[j].Rejected?
  {
    var batch := SelectForImport(rows);
    SelectionKeepsIndicesUnique(rows);
    UploadAllSettlesEachRow(rows, batch, outcomes);
    forall k | 0 <= k < |rows|
      ensures UploadAll(rows, batch, outcomes)[k].status == Error <==>
        exists j | 0 <= j < |batch| :: batch[j].index == rows[k].index && outcomes[j].Rejected?
    {
      assert rows[k] in rows;
      AfterBatchErrorIffRejected(rows[k], batch, outcomes);
    }
  }

  /** A row that ends a batch in error was rejected in it, or was in error and not in it. */
  lemma AfterBatchErrorIffRejected(row: Row, batch: seq<Row>, outcomes: seq<UploadOutcome>)
    requires |batch| == |outcomes| && UniqueIndices(batch)
    requires row.status == Error ==> row in batch
    ensures AfterBatch(row, batch, outcomes).status == Error <==>
      exists j | 0 <= j < |batch| :: batch[j].index == row.index && outcomes[j].Rejected?
  {
    var f := FirstWithIndex(batch, row.index);
    if f.Some? {
      forall j | 0 <= j < |batch| && batch[j].index == row.index ensures j == f.value {
      }
    }
  }

  // ----- the concurrency setting -----

  /** `Math.max(1, Math.min(20, Number(value || 1)))`; a number input's value is '' or a number. */
  function ClampConcurrency(input: Option<real>): (c: real)
    ensures 1.0 <= c <= 20.0
    ensures input.None? ==> c == 1.0
    ensures input.Some? && 1.0 <= input.value <= 20.0 ==> c == input.value
    ensures input.Some? && input.value < 1.0 ==> c == 1.0
    ensures input.Some? && input.value > 20.0 ==> c == 20.0
  {
    var x := if input.Some? then input.value else 1.0;
    var m := if x < 20.0 then x else 20.0;
    if m > 1.0 then m else 1.0
  }

  predicate IsIntegral(x: real) {
    x == x.Floor as real
  }

  const InvalidArrayLength: string := "Invalid array length"

  /** `Math.max(1, Math.min(concurrency, total))`, the length given to `new Array`. */
  function WorkerSpan(concurrency: real, total: nat): (v: real)
    ensures v >= 1.0
    ensures v <= concurrency || v <= 1.0
    ensures total >= 1 ==> v <= total as real
    ensures 1.0 <= concurrency <= total as real ==> v == concurrency
    ensures total >= 1 && total as real <= concurrency ==> v == total as real
    ensures concurrency <= 1.0 || total <= 1 ==> v == 1.0
  {
    var m := if concurrency < total as real then concurrency else total as real;
    if m > 1.0 then m else 1.0
  }

  /**
   * The number of workers as written: `new Array(n)` throws a RangeError for
   * a length that is not a whole number, which happens exactly when the
   * setting is fractional and strictly between 1 and the batch size.
   */
  function WorkerCountAsWritten(concurrency: real, total: nat): (r: Result<nat, string>)
    ensures r.Failure? <==> 1.0 < concurrency < total as real && !IsIntegral(concurrency)
    ensures r.Failure? ==> r.error == InvalidArrayLength
    ensures r.Success? ==> r.value as real == WorkerSpan(concurrency, total)
  {
    var v := WorkerSpan(concurrency, total);
    if IsIntegral(v) then Success(v.Floor) else Failure(InvalidArrayLength)
  }

  /** The number of workers as evidently intended: the largest whole number within the span. */
  function WorkerCount(concurrency: real, total: nat): (n: nat)
    ensures 1 <= n
    ensures total >= 1 ==> n <= total
    ensures n as real <= WorkerSpan(concurrency, total) < n as real + 1.0
    ensures WorkerCountAsWritten(concurrency, total).Success? ==> WorkerCountAsWritten(concurrency, total).value == n
  {
    WorkerSpan(concurrency, total).Floor
  }

  /** The input `2.5` passes the clamp, and with three rows to upload the import aborts. */
  lemma FractionalConcurrencyAborts()
    ensures ClampConcurrency(Some(2.5)) == 2.5
    ensures WorkerCountAsWritten(ClampConcurrency(Some(2.5)), 3) == Failure(InvalidArrayLength)
    ensures WorkerCount(ClampConcurrency(Some(2.5)), 3) == 2
  {
  }

  // ----- the counts line -----

  datatype Counts = Counts(total: nat, pending: nat, invalid: nat, uploading: nat, success: nat, error: nat)

  /** `rows.reduce(...)`: one tally per status. */
  function CountRows(rows: seq<Row>): (c: Counts)
    ensures c.total == |rows|
    ensures c.total == c.pending + c.invalid + c.uploading + c.success + c.error
  {
    if rows == [] then Counts(0, 0, 0, 0, 0, 0)
    else
      var c := CountRows(rows[..|rows| - 1]);
      match rows[|rows| - 1].status
      case Pending => c.(total := c.total + 1, pending := c.pending + 1)
      case Invalid => c.(total := c.total + 1, invalid := c.invalid + 1)
      case Uploading => c.(total := c.total + 1, uploading := c.uploading + 1)
      case Succeeded => c.(total := c.total + 1, success := c.success + 1)
      case Error => c.(total := c.total + 1, error := c.error + 1)
  }

  /** The statuses of the rows, in order. */
  function Statuses(rows: seq<Row>): (r: seq<RowStatus>)
    ensures |r| == |rows| && forall i | 0 <= i < |rows| :: r[i] == rows[i].status
  {
    seq(|rows|, i requires 0 <= i < |rows| => rows[i].status)
  }

  /** The tally the counts line shows for status `st`. */
  function Tally(c: Counts, st: RowStatus): nat {
    match st
    case Pending => c.pending
    case Invalid => c.invalid
    case Uploading => c.uploading
    case Succeeded => c.success
    case Error => c.error
  }

  /** One more row adds one to the tally of its own status and nothing to the others. */
  lemma TallyStep(rows: seq<Row>, st: RowStatus)
    requires rows != []
    ensures Tally(CountRows(rows), st)
         == Tally(CountRows(rows[..|rows| - 1]), st) + (if rows[|rows| - 1].status == st then 1 else 0)
  {
  }

  /** Each tally is the number of rows in that status. */
  lemma {:induction false} CountRowsTallies(rows: seq<Row>, st: RowStatus)
    ensures Tally(CountRows(rows), st) == multiset(Statuses(rows))[st]
  {
    if rows != [] {
      var n := |rows| - 1;
      CountRowsTallies(rows[..n], st);
      assert Statuses(rows) == Statuses(rows[..n]) + [rows[n].status];
      assert multiset(Statuses(rows)) == multiset(Statuses(rows[..n])) + multiset{rows[n].status};
      TallyStep(rows, st);
    }
  }

  /** Adding a row at the end adds it to Start Import's selection when it qualifies. */
  lemma {:induction false} SelectForImportSnoc(rows: seq<Row>, x: Row)
    ensures SelectForImport(rows + [x])
         == SelectForImport(rows) + (if x.status == Pending || x.status == Error then [x] else [])
  {
    if rows != [] {
      var s := rows + [x];
      assert s[1..] == rows[1..] + [x];
      SelectForImportSnoc(rows[1..], x);
      var tail := SelectForImport(s[1..]);
      assert SelectForImport(s) == (if rows[0].status == Pending || rows[0].status == Error then [rows[0]] + tail else tail);
    }
  }

  /** Adding a row at the end adds it to Retry Failed's selection when it is in error. */
  lemma {:induction false} SelectForRetrySnoc(rows: seq<Row>, x: Row)
    ensures SelectForRetry(rows + [x]) == SelectForRetry(rows) + (if x.status == Error then [x] else [])
  {
    if rows != [] {
      var s := rows + [x];
      assert s[1..] == rows[1..] + [x];
      SelectForRetrySnoc(rows[1..], x);
      var tail := SelectForRetry(s[1..]);
      assert SelectForRetry(s) == (if rows[0].status == Error then [rows[0]] + tail else tail);
    }
  }

  /**
   * The counts line agrees with the buttons: pending plus error rows are
   * the rows Start Import takes, error rows the rows Retry Failed takes.
   */
  lemma {:induction false} CountsMatchSelections(rows: seq<Row>)
    ensures CountRows(rows).pending + CountRows(rows).error == |SelectForImport(rows)|
    ensures CountRows(rows).error == |SelectForRetry(rows)|
  {
    if rows != [] {
      var n := |rows| - 1;
      CountsMatchSelections(rows[..n]);
      SelectForImportSnoc(rows[..n], rows[n]);
      SelectForRetrySnoc(rows[..n], rows[n]);
      assert rows[..n] + [rows[n]] == rows;
    }
  }
}
