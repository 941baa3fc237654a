/**
 * The part of `url::Url` the client uses: an origin (scheme, host, port), a path that is
 * either a list of segments or the opaque text of a cannot-be-a-base URL, and a list of
 * query pairs. `Url` is the mutable object the getters clone and change in place;
 * `UrlValue` is its value.
 */
module Urls {

  /** `/a/b` is `Segments(["a", "b"])`; the root path `/` is `Segments([""])`. */
  datatype Path = Segments(segments: seq<string>) | Opaque(text: string)

  datatype UrlValue = UrlValue(origin: string, path: Path, query: seq<(string, string)>)

  /** A hierarchical URL always has at least one path segment, as the url crate keeps it. */
  predicate WellFormed(u: UrlValue) {
    u.path.Segments? ==> |u.path.segments| >= 1
  }

  /** Each segment preceded by a slash. */
  function SlashJoined(ss: seq<string>): string {
    if ss == [] then "" else "/" + ss[0] + SlashJoined(ss[1..])
  }

  function PathString(p: Path): string {
    match p
    case Segments(ss) => SlashJoined(ss)
    case Opaque(text) => text
  }

  /** The pairs as `k=v`, joined by `&`. */
  function PairsString(q: seq<(string, string)>): string {
    if q == [] then ""
    else q[0].0 + "=" + q[0].1 + (if |q| == 1 then "" else "&" + PairsString(q[1..]))
  }

  function QueryString(q: seq<(string, string)>): string {
    if q == [] then "" else "?" + PairsString(q)
  }

  /** `&url[url::Position::BeforePath..]`: the path and the query, without scheme and host. */
  function PathWithQuery(u: UrlValue): (r: string)
    ensures |r| >= |PathString(u.path)| && r[..|PathString(u.path)|] == PathString(u.path)
    ensures u.query == [] <==> |r| == |PathString(u.path)|
    ensures u.query != [] ==> r[|PathString(u.path)|] == '?' && r[|PathString(u.path)| + 1..] == PairsString(u.query)
  {
    PathString(u.path) + QueryString(u.query)
  }

  /** `url.to_string()`. */
  function Serialize(u: UrlValue): (r: string)
    ensures |r| >= |u.origin| && r[|u.origin|..] == PathWithQuery(u)
  {
    u.origin + PathWithQuery(u)
  }

  /** The segments after one `push(s)`: a root path `/` is replaced, any other path grows by one. */
  function PushedSegments(ss: seq<string>, s: string): (r: seq<string>)
    ensures |r| >= 1 && r[|r| - 1] == s
  {
    if ss == [""] then [s] else ss + [s]
  }

  /** The segments after pushing each of `more` in turn. */
  function PushedAll(ss: seq<string>, more: seq<string>): seq<string>
    decreases |more|
  {
    if more == [] then ss else PushedAll(PushedSegments(ss, more[0]), more[1..])
  }

  /** `u` with `more` pushed onto its (hierarchical) path. */
  function WithSegments(u: UrlValue, more: seq<string>): UrlValue
    requires u.path.Segments?
  {
    u.(path := Segments(PushedAll(u.path.segments, more)))
  }

  /** `u` with the pairs `more` appended to its query. */
  function WithPairs(u: UrlValue, more: seq<(string, string)>): (r: UrlValue)
    ensures r.origin == u.origin && r.path == u.path && r.query == u.query + more
  {
    u.(query := u.query + more)
  }

  /** Pushing `s` onto a well-formed path makes the path string end in `/s`, after the old path unless that was `/`. */
  lemma PushedPath(ss: seq<string>, s: string)
    requires |ss| >= 1
    ensures SlashJoined(PushedSegments(ss, s)) == (if ss == [""] then "" else SlashJoined(ss)) + "/" + s
  {
    if ss == [""] {
      PushedRoot(s);
    } else {
      assert PushedSegments(ss, s) == ss + [s];
      SlashJoinedAppend(ss, s);
    }
  }

  lemma PushedRoot(s: string)
    ensures SlashJoined(PushedSegments([""], s)) == "" + "/" + s
  {
    assert PushedSegments([""], s) == [s];
    assert SlashJoined([s]) == "/" + s + SlashJoined([s][1..]);
    assert [s][1..] == [];
  }

  lemma {:induction false} SlashJoinedAppend(ss: seq<string>, s: string)
    ensures SlashJoined(ss + [s]) == SlashJoined(ss) + "/" + s
  {
    if ss == [] {
      assert SlashJoined([s]) == "/" + s + SlashJoined([]);
    } else {
      assert (ss + [s])[1..] == ss[1..] + [s];
      SlashJoinedAppend(ss[1..], s);
    }
  }

  /** Pushing two segments, the first one not empty, appends `/a/b` to the path string (which replaces a root `/`). */
  lemma PushedTwo(ss: seq<string>, a: string, b: string)
    requires |ss| >= 1 && a != ""
    ensures SlashJoined(PushedAll(ss, [a, b])) == (if ss == [""] then "" else SlashJoined(ss)) + "/" + a + "/" + b
  {
    var once := PushedSegments(ss, a);
    assert once[|once| - 1] == a;
    assert PushedAll(ss, [a, b]) == PushedAll(once, [b]);
    assert PushedAll(once, [b]) == PushedSegments(once, b);
    PushedPath(ss, a);
    PushedPath(once, b);
  }

  /** The object the getters change: a clone of the base URL. */
  class Url {
    var origin: string
    var path: Path
    var query: seq<(string, string)>

    function Value(): UrlValue
      reads this
    {
      UrlValue(origin, path, query)
    }

    /** `base_url.clone()`. */
    constructor (v: UrlValue)
      ensures Value() == v
    {
      origin, path, query := v.origin, v.path, v.query;
    }

    /** `path_segments_mut()` fails exactly on a cannot-be-a-base URL. */
    function CannotBeABase(): bool
      reads this
    {
      path.Opaque?
    }

    /** `path_segments_mut().push(s)`. */
    method Push(s: string)
      requires path.Segments?
      modifies this
      ensures Value() == old(Value()).(path := Segments(PushedSegments(old(path.segments), s)))
    {
      path := Segments(PushedSegments(path.segments, s));
    }

    /** `query_pairs_mut().append_pair(key, value)`. */
    method AppendPair(key: string, value: string)
      modifies this
      ensures Value() == WithPairs(old(Value()), [(key, value)])
    {
      query := query + [(key, value)];
    }
  }
}
