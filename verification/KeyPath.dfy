/** Where an oid lives in the file store: the sharded path and its temporary sibling. */
module KeyPath {
  /** The final path of an object or the temporary path it is uploaded through. */
  datatype Entry = Final(key: string) | Temp(key: string)

  /** Oids the path transform is meant for: no separator and no dot, so that joining is concatenation. */
  ghost predicate PlainKey(key: string) {
    |key| > 0 && '/' !in key && '.' !in key
  }

  function TransformKey(key: string): string {
    if |key| < 5 then key else key[0..2] + "/" + key[2..4] + "/" + key[4..]
  }

  function PathOf(e: Entry): string {
    match e
    case Final(key) => TransformKey(key)
    case Temp(key) => TransformKey(key) + ".tmp"
  }

  /** A path with its separators removed. */
  function Unslash(path: string): string {
    if path == "" then "" else (if path[0] == '/' then "" else [path[0]]) + Unslash(path[1..])
  }

  /** The directories and the file name along the path of an entry. */
  function Components(e: Entry): seq<string> {
    var suffix := if e.Final? then "" else ".tmp";
    if |e.key| < 5 then [e.key + suffix] else [e.key[0..2], e.key[2..4], e.key[4..] + suffix]
  }

  function JoinSlash(parts: seq<string>): string
    requires parts != []
  {
    if |parts| == 1 then parts[0] else parts[0] + "/" + JoinSlash(parts[1..])
  }

  /** `dir` is a directory on the way to `path`. */
  ghost predicate IsAncestor(dir: string, path: string) {
    dir + "/" <= path
  }

  lemma {:induction false} UnslashConcat(a: string, b: string)
    ensures Unslash(a + b) == Unslash(a) + Unslash(b)
  {
    if a == "" {
      assert a + b == b;
    } else {
      assert (a + b)[1..] == a[1..] + b;
      UnslashConcat(a[1..], b);
    }
  }

  lemma {:induction false} UnslashPlain(a: string)
    requires '/' !in a
    ensures Unslash(a) == a
  {
    if a != "" { UnslashPlain(a[1..]); }
  }

  lemma UnslashSlash(a: string)
    ensures Unslash("/" + a) == Unslash(a)
  {
    assert ("/" + a)[1..] == a;
  }

  lemma UnslashShards(a: string, b: string, c: string)
    requires '/' !in a && '/' !in b && '/' !in c
    ensures Unslash(a + "/" + b + "/" + c) == a + b + c
  {
    var tail := "/" + (b + ("/" + c));
    assert a + "/" + b + "/" + c == a + tail;
    UnslashConcat(a, tail);
    UnslashConcat(b, "/" + c);
    UnslashPlain(a);
    UnslashPlain(b);
    UnslashPlain(c);
    UnslashSlash(b + ("/" + c));
    UnslashSlash(c);
  }

  /** Removing the separators gives the oid back, so distinct oids never share a path. */
  lemma UnslashRecoversKey(key: string)
    requires PlainKey(key)
    ensures Unslash(TransformKey(key)) == key
  {
    if |key| < 5 {
      UnslashPlain(key);
    } else {
      var a, b, c := key[0..2], key[2..4], key[4..];
      UnslashShards(a, b, c);
      assert key == a + b + c;
    }
  }

  lemma NoDotInFinal(key: string)
    requires PlainKey(key)
    ensures '.' !in TransformKey(key)
  {
  }

  /** No two entries share a path: not two oids, nor an oid and any oid's temporary file. */
  lemma PathsAreInjective(e: Entry, f: Entry)
    requires PlainKey(e.key) && PlainKey(f.key) && PathOf(e) == PathOf(f)
    ensures e == f
  {
    UnslashRecoversKey(e.key);
    UnslashRecoversKey(f.key);
    NoDotInFinal(e.key);
    NoDotInFinal(f.key);
    if e.Temp? {
      assert PathOf(e)[|TransformKey(e.key)|] == '.';
    }
    if f.Temp? {
      assert PathOf(f)[|TransformKey(f.key)|] == '.';
    }
    if e.Temp? && f.Temp? {
      var p, q := TransformKey(e.key), TransformKey(f.key);
      assert |p| == |q|;
      assert p == PathOf(e)[..|p|] == PathOf(f)[..|q|] == q;
    }
  }

  /** The separators of a path are exactly the two of a sharded oid. */
  lemma SlashPositions(e: Entry)
    requires PlainKey(e.key)
    ensures forall i :: 0 <= i < |PathOf(e)| ==> (PathOf(e)[i] == '/' <==> |e.key| >= 5 && (i == 2 || i == 5))
  {
    var p, t := PathOf(e), TransformKey(e.key);
    forall i | 0 <= i < |p|
      ensures p[i] == '/' <==> |e.key| >= 5 && (i == 2 || i == 5)
    {
      if i < |t| {
        assert p[i] == t[i];
      } else {
        assert p[i] == ".tmp"[i - |t|];
      }
    }
  }

  /**
    Exactly when one entry's file would have to be a directory for another: only a
    two-character oid that is the first shard of a longer one. Oids of any other length never clash.
  */
  lemma AncestorsExactly(e: Entry, f: Entry)
    requires PlainKey(e.key) && PlainKey(f.key)
    ensures IsAncestor(PathOf(e), PathOf(f)) <==> e.Final? && |f.key| >= 5 && e.key == f.key[0..2]
  {
    var p, q := PathOf(e), PathOf(f);
    SlashPositions(e);
    SlashPositions(f);
    if |f.key| >= 5 {
      assert q[..3] == f.key[0..2] + "/";
      assert q[..2] == q[..3][..2] == f.key[0..2];
    }
    if p + "/" <= q {
      assert q[|p|] == (p + "/")[|p|] == '/';
      assert p == q[..|p|];
      assert forall i :: 0 <= i < |p| ==> p[i] == q[i];
    }
  }

  lemma JoinThree(a: string, b: string, c: string)
    ensures JoinSlash([a, b, c]) == a + "/" + b + "/" + c
  {
    assert [a, b, c][1..] == [b, c] && [b, c][1..] == [c];
    assert JoinSlash([c]) == c && JoinSlash([b, c]) == b + "/" + c;
    assert a + "/" + (b + "/" + c) == a + "/" + b + "/" + c;
  }

  lemma ComponentsJoin(e: Entry)
    ensures JoinSlash(Components(e)) == PathOf(e)
  {
    var c := Components(e);
    if |e.key| >= 5 {
      JoinThree(c[0], c[1], c[2]);
      var suffix := if e.Final? then "" else ".tmp";
      assert c == [c[0], c[1], c[2]];
      assert TransformKey(e.key) + suffix == c[0] + "/" + c[1] + "/" + (e.key[4..] + suffix);
      assert e.Final? ==> TransformKey(e.key) + "" == TransformKey(e.key);
    }
  }
}
