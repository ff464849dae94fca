/** Lookup of a possibly dotted key in a parsed attributes object. */
module Attributes {
  import opened Wrappers

  datatype Json =
    | Null
    | Bool(b: bool)
    | Number(text: string)
    | String(s: string)
    | Array(items: seq<Json>)
    | Object(fields: map<string, Json>)

  /** Index of the first dot at or after `i`. */
  function DotAt(key: string, i: nat): (r: Option<nat>)
    ensures r.Some? ==> i <= r.value < |key| && key[r.value] == '.'
    ensures r.None? ==> forall k :: i <= k < |key| ==> key[k] != '.'
    ensures r.Some? ==> forall k :: i <= k < r.value ==> key[k] != '.'
    decreases |key| - i
  {
    if i >= |key| then None else if key[i] == '.' then Some(i) else DotAt(key, i + 1)
  }

  /** `key.split('.')`. */
  function Segments(key: string): (segs: seq<string>)
    ensures segs != []
    decreases |key|
  {
    var dot := DotAt(key, 0);
    if dot.None? then [key] else [key[..dot.value]] + Segments(key[dot.value + 1..])
  }

  /** Into nested objects, one segment at a time. */
  function Walk(v: Json, segs: seq<string>): (r: Option<Json>)
    decreases |segs|
  {
    if segs == [] then Some(v)
    else if v.Object? && segs[0] in v.fields then Walk(v.fields[segs[0]], segs[1..])
    else None
  }

  /** A literal key wins; otherwise a dotted key walks. */
  function Lookup(m: map<string, Json>, key: string): (r: Option<Json>) {
    if key in m then Some(m[key])
    else if DotAt(key, 0).None? then None
    else Walk(Object(m), Segments(key))
  }

  method AttrLookup(m: map<string, Json>, key: string) returns (r: Option<Json>)
    ensures r == Lookup(m, key)
  {
    if key in m {
      return Some(m[key]);
    }
    var dot := DotAt(key, 0);
    if dot.None? {
      return None;
    }
    var segs := Segments(key);
    if segs[0] !in m {
      return None;
    }
    var cur := m[segs[0]];
    for i := 1 to |segs|
      invariant Walk(Object(m), segs) == Walk(cur, segs[i..])
    {
      if !cur.Object? || segs[i] !in cur.fields {
        return None;
      }
      cur := cur.fields[segs[i]];
      assert segs[i..][1..] == segs[i + 1..];
    }
    return Some(cur);
  }

  /** Segments joined with dots. */
  function Joined(segs: seq<string>): (key: string)
    requires segs != []
  {
    if |segs| == 1 then segs[0] else segs[0] + ("." + Joined(segs[1..]))
  }

  predicate DotFree(seg: string) {
    forall k :: 0 <= k < |seg| ==> seg[k] != '.'
  }

  /** Splitting undoes joining. */
  lemma {:induction false} SegmentsOfJoined(segs: seq<string>)
    requires segs != [] && forall i :: 0 <= i < |segs| ==> DotFree(segs[i])
    ensures Segments(Joined(segs)) == segs
    ensures DotAt(Joined(segs), 0).Some? <==> |segs| > 1
  {
    hide DotAt, DotFree;
    assert DotFree(segs[0]);
    if |segs| == 1 {
      WholeSegment(segs[0]);
    } else {
      var rest := Joined(segs[1..]);
      SegmentsOfJoined(segs[1..]);
      FirstSegment(segs[0], rest);
      assert segs == [segs[0]] + segs[1..];
    }
  }

  lemma WholeSegment(seg: string)
    requires DotFree(seg)
    ensures DotAt(seg, 0).None? && Segments(seg) == [seg]
  {
    hide DotAt;
  }

  lemma FirstSegment(seg: string, rest: string)
    requires DotFree(seg)
    ensures DotAt(seg + ("." + rest), 0).Some? && Segments(seg + ("." + rest)) == [seg] + Segments(rest)
  {
    hide DotAt;
    var key := seg + ("." + rest);
    assert key[|seg|] == '.' && key[|seg| + 1..] == rest && key[..|seg|] == seg;
    assert forall k :: 0 <= k < |seg| ==> key[k] == seg[k];
    assert DotAt(key, 0) == Some(|seg|);
  }

  /** A path of two or more names resolves through the objects unless its spelling is itself a key. */
  lemma LookupResolvesPaths(m: map<string, Json>, path: seq<string>)
    requires |path| > 1 && forall i :: 0 <= i < |path| ==> DotFree(path[i])
    ensures Lookup(m, Joined(path)) == if Joined(path) in m then Some(m[Joined(path)]) else Walk(Object(m), path)
  {
    SegmentsOfJoined(path);
  }

  /** Each value but the last is an object that holds the next one under the segment between them. */
  ghost predicate Chain(vs: seq<Json>, segs: seq<string>) {
    && |vs| == |segs| + 1
    && forall i :: 0 <= i < |segs| ==>
         vs[i].Object? && segs[i] in vs[i].fields && vs[i].fields[segs[i]] == vs[i + 1]
  }

  /** A chain of nested objects leads from `v` to `w`. */
  ghost predicate Leads(v: Json, segs: seq<string>, w: Json) {
    exists vs :: Chain(vs, segs) && vs[0] == v && vs[|segs|] == w
  }

  /** A walk ends at a value exactly when a chain of nested objects leads to it. */
  lemma {:induction false} WalkIff(v: Json, segs: seq<string>, w: Json)
    ensures Walk(v, segs) == Some(w) <==> Leads(v, segs, w)
    decreases |segs|
  {
    hide Leads;
    if segs == [] {
      NoLinks(v, w);
    } else {
      if v.Object? && segs[0] in v.fields {
        WalkIff(v.fields[segs[0]], segs[1..], w);
      }
      FirstLink(v, segs, w);
    }
  }

  lemma NoLinks(v: Json, w: Json)
    ensures Leads(v, [], w) <==> v == w
  {
    assert Chain([v], []);
  }

  lemma FirstLink(v: Json, segs: seq<string>, w: Json)
    requires segs != []
    ensures Leads(v, segs, w) <==>
              v.Object? && segs[0] in v.fields && Leads(v.fields[segs[0]], segs[1..], w)
  {
    if vs :| Chain(vs, segs) && vs[0] == v && vs[|segs|] == w {
      assert Chain(vs[1..], segs[1..]);
    }
    if v.Object? && segs[0] in v.fields && Leads(v.fields[segs[0]], segs[1..], w) {
      var vs :| Chain(vs, segs[1..]) && vs[0] == v.fields[segs[0]] && vs[|segs| - 1] == w;
      assert Chain([v] + vs, segs);
    }
  }
}
