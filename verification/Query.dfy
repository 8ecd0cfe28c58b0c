/** URL query parameters and the sanity check of upload paths
    (src/web/http_common.c). */
module Query {
  import opened Text

  /** A key as the callers pass it: it cannot be confused with the syntax. */
  predicate Plain(key: string) {
    '&' !in key && '=' !in key
  }

  /** The value of the first parameter whose text before its first '=' is the key. */
  function FirstValue(parts: seq<string>, key: string): Option<string> {
    if parts == [] then None else
    var eq := IndexOf(parts[0], '=', 0);
    if eq < |parts[0]| && parts[0][..eq] == key then Some(parts[0][eq + 1..])
    else FirstValue(parts[1..], key)
  }

  /** The parameter list is everything after the first '?'. */
  function Lookup(url: string, key: string): Option<string> {
    var q := IndexOf(url, '?', 0);
    if q == |url| then None else FirstValue(Split(url[q + 1..], '&'), key)
  }

  /** What fits in a buffer of this size. */
  function Cut(value: Option<string>, size: nat): Option<string>
    requires size > 0
  {
    if value.Some? then Some(Snprintf(size, value.value)) else None
  }

  /** The test of the loop: the next '=' anywhere ends a copy of the key. */
  predicate StartsWith(q: string, key: string) {
    var eq := IndexOf(q, '=', 0);
    eq < |q| && eq == |key| && q[..eq] == key
  }

  /** A match is never cut by a separator, so it is the first parameter's. */
  lemma MatchIsFirst(q: string, key: string)
    requires Plain(key) && StartsWith(q, key)
    ensures var eq, amp := IndexOf(q, '=', 0), IndexOf(q, '&', 0);
      && eq < amp
      && FirstValue(Split(q, '&'), key) == Some(q[eq + 1..amp])
  {
    var eq, amp := IndexOf(q, '=', 0), IndexOf(q, '&', 0);
    assert forall k :: 0 <= k < |key| ==> q[k] == key[k] && key[k] in key;
    HeadEquals(q, amp, eq);
    var head := Split(q, '&')[0];
    assert head == q[..amp];
    assert head[..eq] == q[..eq] && head[eq + 1..] == q[eq + 1..amp];
  }

  /** Without a match the first parameter is not the key's, even when the '='
      found belongs to a later one. */
  lemma MismatchMovesOn(q: string, key: string)
    requires Plain(key) && IndexOf(q, '=', 0) < |q| && !StartsWith(q, key)
    ensures var amp := IndexOf(q, '&', 0);
      FirstValue(Split(q, '&'), key) == if amp < |q| then FirstValue(Split(q[amp + 1..], '&'), key) else None
  {
    var eq, amp := IndexOf(q, '=', 0), IndexOf(q, '&', 0);
    HeadEquals(q, amp, eq);
    var parts := Split(q, '&');
    assert parts[0] == q[..amp];
    assert eq < amp ==> parts[0][..eq] == q[..eq];
    if amp < |q| {
      assert parts[1..] == Split(q[amp + 1..], '&');
    } else {
      assert parts[1..] == [];
    }
  }

  lemma HeadEquals(s: string, amp: nat, eq: nat)
    requires amp == IndexOf(s, '&', 0) && eq == IndexOf(s, '=', 0)
    ensures IndexOf(s[..amp], '=', 0) == if eq < amp then eq else amp
  {
  }

  lemma {:induction false} NoEquals(s: string, key: string)
    requires forall k :: 0 <= k < |s| ==> s[k] != '='
    ensures FirstValue(Split(s, '&'), key) == None
    decreases |s|
  {
    var amp := IndexOf(s, '&', 0);
    var head := if amp == |s| then s else s[..amp];
    assert forall k :: 0 <= k < |head| ==> head[k] == s[k];
    assert IndexOf(head, '=', 0) == |head|;
    if amp < |s| {
      var tail := s[amp + 1..];
      assert forall k :: 0 <= k < |tail| ==> tail[k] == s[amp + 1 + k];
      NoEquals(tail, key);
    }
  }

  /** Where the loop goes after a parameter that does not match. */
  function Rest(q: string): string {
    var amp := IndexOf(q, '&', 0);
    if amp < |q| then q[amp + 1..] else ""
  }

  /** One round of the loop against the declared answer. */
  lemma RoundIsFaithful(q: string, key: string)
    requires Plain(key)
    ensures IndexOf(q, '=', 0) == |q| ==> FirstValue(Split(q, '&'), key) == None
    ensures StartsWith(q, key) ==>
      |key| < IndexOf(q, '&', 0) && FirstValue(Split(q, '&'), key) == Some(q[|key| + 1..IndexOf(q, '&', 0)])
    ensures IndexOf(q, '=', 0) < |q| && !StartsWith(q, key) ==>
      FirstValue(Split(q, '&'), key) == FirstValue(Split(Rest(q), '&'), key)
  {
    if IndexOf(q, '=', 0) == |q| {
      NoEquals(q, key);
    } else if StartsWith(q, key) {
      MatchIsFirst(q, key);
    } else {
      MismatchMovesOn(q, key);
      NoEquals("", key);
    }
  }

  /** `query_get`. The pointer into the URL is the rest of the text it points to. */
  method QueryGet(url: string, key: string, outSize: nat) returns (r: Option<string>)
    requires Plain(key) && outSize > 0
    ensures r == Cut(Lookup(url, key), outSize)
  {
    var mark := IndexOf(url, '?', 0);
    if mark == |url| {
      return None;
    }
    r := SearchParameters(url[mark + 1..], key, outSize);
  }

  /** The loop of `query_get`. */
  method SearchParameters(query: string, key: string, outSize: nat) returns (r: Option<string>)
    requires Plain(key) && outSize > 0
    ensures r == Cut(FirstValue(Split(query, '&'), key), outSize)
  {
    var q := query;
    while q != ""
      invariant FirstValue(Split(query, '&'), key) == FirstValue(Split(q, '&'), key)
      decreases |q|
    {
      RoundIsFaithful(q, key);
      var eq := IndexOf(q, '=', 0);
      var amp := IndexOf(q, '&', 0);
      if eq == |q| {
        return None;
      }
      if StartsWith(q, key) {
        return Some(Snprintf(outSize, q[eq + 1..amp]));
      }
      q := Rest(q);
    }
    RoundIsFaithful(q, key);
    return None;
  }

  // ---- printing and reading back ----

  datatype Param = Param(key: string, value: string)

  function PrintParam(p: Param): string {
    p.key + "=" + p.value
  }

  function PrintAll(ps: seq<Param>): seq<string> {
    seq(|ps|, i requires 0 <= i < |ps| => PrintParam(ps[i]))
  }

  ghost predicate Printable(p: Param) {
    Plain(p.key) && '&' !in p.value
  }

  function ValueOf(ps: seq<Param>, key: string): Option<string> {
    if ps == [] then None
    else if ps[0].key == key then Some(ps[0].value)
    else ValueOf(ps[1..], key)
  }

  lemma PrintedParam(p: Param)
    requires Printable(p)
    ensures '&' !in PrintParam(p)
    ensures IndexOf(PrintParam(p), '=', 0) == |p.key|
  {
    assert forall k :: 0 <= k < |p.key| ==> p.key[k] in p.key;
    assert PrintParam(p)[|p.key|] == '=';
  }

  lemma {:induction false} PrintedValue(ps: seq<Param>, key: string)
    requires forall i :: 0 <= i < |ps| ==> Printable(ps[i])
    ensures FirstValue(PrintAll(ps), key) == ValueOf(ps, key)
  {
    if ps != [] {
      PrintedParam(ps[0]);
      PrintedValue(ps[1..], key);
      assert PrintAll(ps)[1..] == PrintAll(ps[1..]);
      var text := PrintParam(ps[0]);
      assert text[..|ps[0].key|] == ps[0].key && text[|ps[0].key| + 1..] == ps[0].value;
    }
  }

  /** Printing a parameter list and looking a key up gives its first value back. */
  lemma QueryRoundTrip(path: string, ps: seq<Param>, key: string)
    requires '?' !in path && ps != [] && forall i :: 0 <= i < |ps| ==> Printable(ps[i])
    ensures Lookup(path + "?" + Join(PrintAll(ps), '&'), key) == ValueOf(ps, key)
  {
    var query := Join(PrintAll(ps), '&');
    var url := path + "?" + query;
    assert forall k :: 0 <= k < |path| ==> path[k] in path;
    assert url[|path|] == '?' && url[|path| + 1..] == query;
    assert IndexOf(url, '?', 0) == |path|;
    forall i | 0 <= i < |ps| ensures '&' !in PrintAll(ps)[i] {
      PrintedParam(ps[i]);
    }
    SplitJoin(PrintAll(ps), '&');
    PrintedValue(ps, key);
  }

  // ---- path sanity ----

  predicate GoodSegment(seg: string) {
    seg != "" && seg != "." && seg != ".."
  }

  /** All segments name something; a single trailing slash is allowed. */
  predicate GoodSegments(segs: seq<string>) {
    forall k :: 0 <= k < |segs| ==> GoodSegment(segs[k]) || (0 < k == |segs| - 1 && segs[k] == "")
  }

  predicate Sane(rel: string) {
    rel != "" && GoodSegments(Split(rel, '/'))
  }

  /** `path_is_sane`. */
  method PathIsSane(rel: string) returns (ok: bool)
    ensures ok == Sane(rel)
  {
    if rel == "" {
      return false;
    }
    if rel[0] == '/' {
      assert Split(rel, '/')[0] == "";
      return false;
    }
    var p := rel;
    ghost var done: seq<string> := [];
    while p != ""
      invariant Split(rel, '/') == done + Split(p, '/')
      invariant forall k :: 0 <= k < |done| ==> GoodSegment(done[k])
      invariant p == "" ==> done != []
      invariant done == [] ==> p == rel
      decreases |p|
    {
      var slash := IndexOf(p, '/', 0);
      var seg := p[..slash];
      assert Split(rel, '/')[|done|] == Split(p, '/')[0] == seg;
      if seg == "" || seg == "." || seg == ".." {
        assert slash < |p| ==> |Split(p, '/')| > 1;
        return false;
      }
      if slash == |p| {
        assert Split(p, '/') == [seg];
        return true;
      }
      done, p := done + [seg], p[slash + 1..];
    }
    return true;
  }

  /** Exactly these joined paths pass: no segment is empty, "." or "..", but for
      an empty one after the last slash. */
  lemma SaneExactly(segs: seq<string>)
    requires segs != [] && forall k :: 0 <= k < |segs| ==> '/' !in segs[k]
    ensures Sane(Join(segs, '/')) <==>
      && segs[0] != ""
      && forall k :: 0 <= k < |segs| ==>
           segs[k] != "." && segs[k] != ".." && (segs[k] != "" || k == |segs| - 1)
  {
    SplitJoin(segs, '/');
    EmptyJoin(segs);
  }

  lemma EmptyJoin(segs: seq<string>)
    requires segs != []
    ensures Join(segs, '/') == "" <==> segs == [""]
  {
    if |segs| > 1 {
      assert Join(segs, '/')[|segs[0]|] == '/';
    }
  }

  /** Walking a path from a directory. */
  function Resolve(at: seq<string>, segs: seq<string>): seq<string>
    decreases |segs|
  {
    if segs == [] then at
    else if segs[0] == "" || segs[0] == "." then Resolve(at, segs[1..])
    else if segs[0] == ".." then Resolve(if at == [] then at else at[..|at| - 1], segs[1..])
    else Resolve(at + [segs[0]], segs[1..])
  }

  lemma {:induction false} ResolveConcat(at: seq<string>, a: seq<string>, b: seq<string>)
    ensures Resolve(at, a + b) == Resolve(Resolve(at, a), b)
    decreases |a|
  {
    if a == [] {
      assert a + b == b;
    } else {
      assert (a + b)[1..] == a[1..] + b;
      var next := if a[0] == "" || a[0] == "." then at
                  else if a[0] == ".." then (if at == [] then at else at[..|at| - 1])
                  else at + [a[0]];
      ResolveConcat(next, a[1..], b);
    }
  }

  lemma {:induction false} ResolveGood(at: seq<string>, segs: seq<string>)
    requires forall k :: 0 <= k < |segs| ==> GoodSegment(segs[k]) || (k == |segs| - 1 && segs[k] == "")
    ensures at <= Resolve(at, segs)
    decreases |segs|
  {
    if segs != [] {
      var next := if segs[0] == "" then at else at + [segs[0]];
      ResolveGood(next, segs[1..]);
      assert at <= next;
    }
  }

  /** A sane path leads strictly below the directory it is joined to. */
  lemma SaneStaysBelow(base: seq<string>, rel: string)
    requires Sane(rel)
    ensures base < Resolve(base, Split(rel, '/'))
  {
    var segs := Split(rel, '/');
    assert GoodSegment(segs[0]);
    ResolveGood(base + [segs[0]], segs[1..]);
    assert base < base + [segs[0]];
  }

  /** The same for the joined path text. */
  lemma JoinedStaysBelow(base: string, rel: string)
    requires Sane(rel)
    ensures Resolve([], Split(base, '/')) < Resolve([], Split(base + "/" + rel, '/'))
  {
    SplitConcat(base, rel, '/');
    ResolveConcat([], Split(base, '/'), Split(rel, '/'));
    SaneStaysBelow(Resolve([], Split(base, '/')), rel);
  }
}
