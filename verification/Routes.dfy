/** How a client's request finds its handler: the address of a link, its path, and the media type it asks for. */
module Routes {
  import opened Common

  /** `s` split at the first `c`. */
  function Cut(s: string, c: char): Option<(string, string)> {
    if s == "" then None
    else if s[0] == c then Some(("", s[1..]))
    else match Cut(s[1..], c)
      case None => None
      case Some((a, b)) => Some(([s[0]] + a, b))
  }

  lemma {:induction false} CutShorter(s: string, c: char)
    ensures Cut(s, c).Some? ==> |Cut(s, c).value.1| < |s|
  {
    if s != "" && s[0] != c { CutShorter(s[1..], c); }
  }

  function Split(s: string, c: char): seq<string>
    decreases |s|
  {
    match Cut(s, c)
    case None => [s]
    case Some((a, b)) => CutShorter(s, c); [a] + Split(b, c)
  }

  /** What stands before the first `c`, or everything. */
  function Before(s: string, c: char): string {
    match Cut(s, c)
    case None => s
    case Some((a, _)) => a
  }

  datatype Address = Address(scheme: string, host: string, path: string)

  /** The parts of an address; a query or a fragment is no part of its path. */
  function Parse(href: string): Option<Address> {
    match Cut(href, ':')
    case None => None
    case Some((scheme, rest)) =>
      if !("//" <= rest) then None
      else match Cut(rest[2..], '/')
        case None => None
        case Some((host, path)) => Some(Address(scheme, host, "/" + Before(Before(path, '#'), '?')))
  }

  /** The variables of the object routes. */
  datatype Route = Route(namespace: string, repo: string, oid: string)

  /** The route `/{namespace}/{repo}/objects/{oid}`, whose variables are single non-empty segments. */
  function RouteOf(path: string): Option<Route> {
    var segments := Split(path, '/');
    if |segments| == 5 && segments[0] == "" && segments[3] == "objects" &&
       segments[1] != "" && segments[2] != "" && segments[4] != ""
    then Some(Route(segments[1], segments[2], segments[4]))
    else None
  }

  /** The routes for content and for metadata look at the media type, without its parameters. */
  predicate AsksContent(accept: string) {
    Before(accept, ';') == "application/vnd.git-lfs"
  }

  predicate AsksMeta(accept: string) {
    Before(accept, ';') == "application/vnd.git-lfs+json"
  }

  predicate OccursAt(s: string, part: string, i: int) {
    0 <= i && i + |part| <= |s| && s[i..i + |part|] == part
  }

  lemma OccursLater(s: string, part: string)
    requires s != "" && !(part <= s)
    ensures forall i :: OccursAt(s[1..], part, i) ==> OccursAt(s, part, i + 1)
    ensures forall i :: OccursAt(s, part, i) ==> OccursAt(s[1..], part, i - 1)
  {
    forall i | OccursAt(s[1..], part, i)
      ensures OccursAt(s, part, i + 1)
    {
      assert s[1..][i..i + |part|] == s[i + 1..i + 1 + |part|];
    }
    forall i | OccursAt(s, part, i)
      ensures OccursAt(s[1..], part, i - 1)
    {
      assert s[i..i + |part|] == part && s[..|part|] != part;
      assert s[1..][i - 1..i - 1 + |part|] == s[i..i + |part|];
    }
  }

  function Contains(s: string, part: string): (found: bool)
    ensures found <==> exists i :: OccursAt(s, part, i)
  {
    if part <= s then
      assert OccursAt(s, part, 0);
      true
    else if s == "" then
      false
    else
      assert forall i :: OccursAt(s[1..], part, i) ==> OccursAt(s, part, i + 1) by { OccursLater(s, part); }
      assert forall i :: OccursAt(s, part, i) ==> OccursAt(s[1..], part, i - 1) by { OccursLater(s, part); }
      Contains(s[1..], part)
  }

  /** A segment that a path carries as it is. */
  predicate PlainName(name: string) {
    name != "" && '/' !in name && '#' !in name && '?' !in name
  }

  lemma {:induction false} CutAt(a: string, c: char, b: string)
    requires c !in a
    ensures Cut(a + [c] + b, c) == Some((a, b))
  {
    var s := a + [c] + b;
    if a == "" {
      assert s[0] == c && s[1..] == b;
    } else {
      CutAt(a[1..], c, b);
      assert s[1..] == a[1..] + [c] + b;
      assert [a[0]] + a[1..] == a;
    }
  }

  lemma {:induction false} CutNowhere(s: string, c: char)
    requires c !in s
    ensures Cut(s, c) == None
  {
    if s != "" { CutNowhere(s[1..], c); }
  }

  lemma SplitOne(a: string, b: string)
    requires '/' !in a
    ensures Split(a + "/" + b, '/') == [a] + Split(b, '/')
  {
    CutAt(a, '/', b);
  }

  lemma RoutesTo(namespace: string, repo: string, oid: string)
    requires PlainName(namespace) && PlainName(repo) && PlainName(oid)
    ensures RouteOf("/" + (namespace + "/" + (repo + "/" + ("objects" + "/" + oid)))) ==
      Some(Route(namespace, repo, oid))
  {
    var last := "objects" + "/" + oid;
    var middle := repo + "/" + last;
    var all := namespace + "/" + middle;
    assert "" + "/" + all == "/" + all;
    SplitOne("", all);
    SplitOne(namespace, middle);
    SplitOne(repo, last);
    SplitOne("objects", oid);
    CutNowhere(oid, '/');
    assert Split("/" + all, '/') == ["", namespace, repo, "objects", oid];
  }

  lemma ParsesTo(scheme: string, host: string, path: string)
    requires ':' !in scheme && '/' !in host && '#' !in path && '?' !in path
    ensures Parse(scheme + ":" + ("//" + (host + "/" + path))) == Some(Address(scheme, host, "/" + path))
  {
    var rest := host + "/" + path;
    CutAt(scheme, ':', "//" + rest);
    CutAt(host, '/', path);
    assert ("//" + rest)[2..] == rest;
    CutNowhere(path, '#');
    CutNowhere(path, '?');
  }
}
