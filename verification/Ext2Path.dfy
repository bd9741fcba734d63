/** get_inode_from_dir: the path parser, for every path. */
module Ext2Path {
  import opened Wrappers

  /** The names the parser looks up from a position behind a name's first part `acc`: the
      character behind a slash starts the next name whatever it is, and a final slash ends
      the path. */
  function Rest(p: string, acc: string): (names: seq<string>)
    ensures |names| > 0
    decreases |p|
  {
    if p == "" then [acc]
    else if p[0] == '/' then
      if |p| == 1 then [acc] else [acc] + Rest(p[2..], [p[1]])
    else Rest(p[1..], acc + [p[0]])
  }

  /** The names looked up for a whole path: one leading slash is skipped. */
  function Tokens(path: string): seq<string> {
    if path != "" && path[0] == '/' then Rest(path[1..], "") else Rest(path, "")
  }

  // The code.

  /** Looking up names one after the other, each in the inode found before; -1 and the last
      inode found when a lookup fails. */
  function Fold<Inode>(lookup: (Inode, string) -> Option<Inode>, dir: Inode, names: seq<string>): (int, Inode)
    decreases |names|
  {
    if names == [] then (0, dir)
    else
      match lookup(dir, names[0])
      case None => (-1, dir)
      case Some(d) => Fold(lookup, d, names[1..])
  }

  /** The names still to come when the parser is at `current` with `size` characters of a
      name behind it. */
  function RestAt(path: string, current: nat, size: nat): seq<string>
    requires size <= current <= |path|
  {
    Rest(path[current..], path[current - size..current])
  }

  lemma RestSteps(path: string, current: nat, size: nat)
    requires size <= current < |path|
    ensures path[current] != '/' ==> RestAt(path, current, size) == RestAt(path, current + 1, size + 1)
    ensures path[current] == '/' && current + 1 == |path| ==>
              RestAt(path, current, size) == [path[current - size..current]]
    ensures path[current] == '/' && current + 1 < |path| ==>
              RestAt(path, current, size) == [path[current - size..current]] + RestAt(path, current + 2, 1)
  {
    var p, acc := path[current..], path[current - size..current];
    assert p[0] == path[current];
    assert p[1..] == path[current + 1..];
    assert acc + [p[0]] == path[current - size..current + 1];
    if current + 1 < |path| {
      assert p[2..] == path[current + 2..];
      assert [p[1]] == path[current + 1..current + 2];
    }
  }

  lemma TokensStart(path: string)
    ensures path == "" ==> Tokens(path) == [""]
    ensures path != "" && path[0] == '/' ==> Tokens(path) == RestAt(path, 1, 0)
    ensures path != "" && path[0] != '/' ==> Tokens(path) == RestAt(path, 1, 1)
  {
    if path != "" {
      assert path[0..] == path && path[0..0] == path[1..1] == "";
      RestSteps(path, 0, 0);
    }
  }

  lemma LastName(path: string, current: nat, size: nat)
    requires size <= current == |path|
    ensures RestAt(path, current, size) == [path[current - size..current]]
  {
    assert path[current..] == "";
  }

  // What the parser is for.

  function Join(names: seq<string>): string
    requires names != []
  {
    if |names| == 1 then names[0] else names[0] + "/" + Join(names[1..])
  }

  predicate IsName(s: string) {
    s != "" && '/' !in s
  }

  lemma {:induction false} RestOfName(name: string, tail: string, acc: string)
    requires '/' !in name
    ensures Rest(name + tail, acc) == Rest(tail, acc + name)
    decreases |name|
  {
    if name == "" {
      assert name + tail == tail && acc + name == acc;
    } else {
      assert name[0] in name;
      assert (name + tail)[1..] == name[1..] + tail;
      RestOfName(name[1..], tail, acc + [name[0]]);
      assert acc + [name[0]] + name[1..] == acc + name;
    }
  }

  /** Parsing from behind the first character of the first name. */
  lemma {:induction false} RestOfJoin(names: seq<string>, trailing: bool)
    requires names != [] && forall n | n in names :: IsName(n)
    ensures
      var p := Join(names) + if trailing then "/" else "";
      IsName(names[0]) && |p| > 0 && p[0] == names[0][0] && Rest(p[1..], [p[0]]) == names
    decreases |names|
  {
    hide Rest;
    var t := if trailing then "/" else "";
    var n := names[0];
    assert IsName(n);
    assert [n[0]] + n[1..] == n;
    var p := Join(names) + t;
    if |names| == 1 {
      assert p == n + t && p[1..] == n[1..] + t;
      RestOfName(n[1..], t, [n[0]]);
      RestAtEnd(n);
    } else {
      RestOfJoin(names[1..], trailing);
      var q := Join(names[1..]) + t;
      assert p == n + ("/" + q) && p[1..] == n[1..] + ("/" + q);
      RestOfName(n[1..], "/" + q, [n[0]]);
      RestAtSlash(q, n);
    }
  }

  lemma RestAtEnd(acc: string)
    ensures Rest("", acc) == Rest("/", acc) == [acc]
  {
  }

  lemma RestAtSlash(q: string, acc: string)
    requires q != ""
    ensures Rest("/" + q, acc) == [acc] + Rest(q[1..], [q[0]])
  {
    assert ("/" + q)[1] == q[0] && ("/" + q)[2..] == q[1..];
  }

  /** The parser inverts joining: any non-empty list of non-empty slash-free names, with or
      without a leading and a trailing slash, is looked up name by name. */
  lemma ParserInvertsJoin(names: seq<string>, leading: bool, trailing: bool)
    requires names != [] && forall n | n in names :: IsName(n)
    ensures Tokens((if leading then "/" else "") + Join(names) + (if trailing then "/" else "")) == names
  {
    var p := Join(names) + if trailing then "/" else "";
    RestOfJoin(names, trailing);
    assert IsName(names[0]) && names[0][0] in names[0];
    assert "" + [p[0]] == [p[0]];
    assert Rest(p, "") == Rest(p[1..], "" + [p[0]]);
    if leading {
      assert ("/" + p)[1..] == p;
      assert "/" + Join(names) + (if trailing then "/" else "") == "/" + p;
    } else {
      assert "" + Join(names) + (if trailing then "/" else "") == p;
      assert Tokens(p) == Rest(p, "");
    }
  }

  /** An independent reading of a path: its maximal slash-free parts. */
  function Components(p: string, acc: string): seq<string>
    decreases |p|
  {
    var done := if acc == "" then [] else [acc];
    if p == "" then done
    else if p[0] == '/' then done + Components(p[1..], "")
    else Components(p[1..], acc + [p[0]])
  }

  predicate NoDoubleSlash(p: string) {
    forall i | 0 <= i < |p| - 1 :: !(p[i] == '/' && p[i + 1] == '/')
  }

  /** The paths on which the parser sees the components a reader sees. */
  predicate CleanPath(path: string) {
    path != "" && path != "/" && NoDoubleSlash(path)
  }

  lemma {:induction false} ComponentsAreNames(p: string, acc: string)
    requires '/' !in acc
    ensures forall n | n in Components(p, acc) :: IsName(n)
    decreases |p|
  {
    if p != "" {
      ComponentsAreNames(p[1..], if p[0] == '/' then "" else acc + [p[0]]);
    }
  }

  lemma {:induction false} RestBegins(p: string, acc: string)
    ensures acc <= Rest(p, acc)[0]
    decreases |p|
  {
    if p != "" && p[0] != '/' {
      RestBegins(p[1..], acc + [p[0]]);
      assert acc <= acc + [p[0]] <= Rest(p[1..], acc + [p[0]])[0];
    }
  }

  predicate CleanRest(p: string, acc: string) {
    NoDoubleSlash(p) && (acc != "" || (p != "" && p[0] != '/'))
  }

  lemma DoubleSlashTail(p: string, k: nat)
    requires k <= |p| && (k == 0 || NoDoubleSlash(p[..if k < |p| then k + 1 else k]))
    ensures NoDoubleSlash(p) <==> NoDoubleSlash(p[k..])
  {
    if NoDoubleSlash(p[k..]) {
      forall i | 0 <= i < |p| - 1
        ensures !(p[i] == '/' && p[i + 1] == '/')
      {
        if i >= k {
          assert p[k..][i - k] == p[i] && p[k..][i - k + 1] == p[i + 1];
        } else {
          var q := p[..if k < |p| then k + 1 else k];
          assert q[i] == p[i] && q[i + 1] == p[i + 1];
        }
      }
    }
    if NoDoubleSlash(p) {
      forall i | 0 <= i < |p[k..]| - 1
        ensures !(p[k..][i] == '/' && p[k..][i + 1] == '/')
      {
        assert p[k..][i] == p[k + i] && p[k..][i + 1] == p[k + i + 1];
      }
    }
  }

  lemma {:induction false} RestIsComponents(p: string, acc: string)
    requires '/' !in acc
    ensures Rest(p, acc) == Components(p, acc) <==> CleanRest(p, acc)
    decreases |p|
  {
    if p == "" {
    } else if p[0] != '/' {
      RestIsComponents(p[1..], acc + [p[0]]);
      DoubleSlashTail(p, 1);
    } else if acc == "" {
      ComponentsAreNames(p, acc);
      assert "" == Rest(p, acc)[0] && "" in Rest(p, acc);
      assert !IsName("") && "" !in Components(p, acc);
    } else if |p| == 1 {
      assert Components(p[1..], "") == [];
    } else if p[1] == '/' {
      ComponentsAreNames(p[1..], "");
      RestBegins(p[2..], [p[1]]);
      var r := Rest(p[2..], [p[1]]);
      assert Rest(p, acc) == [acc] + r && r[0][0] == '/';
      assert Rest(p, acc)[1..] == r;
      assert ([acc] + Components(p[1..], ""))[1..] == Components(p[1..], "");
      assert r[0][0] in r[0] && !IsName(r[0]);
      assert r[0] in r && r[0] !in Components(p[1..], "");
      assert p[0] == '/' && p[0 + 1] == '/';
    } else {
      RestIsComponents(p[2..], [p[1]]);
      DoubleSlashTail(p, 2);
      assert p[1..][1..] == p[2..] && p[1..][0] == p[1] && "" + [p[1]] == [p[1]];
      assert Components(p[1..], "") == Components(p[2..], [p[1]]);
      assert ([acc] + Rest(p[2..], [p[1]]))[1..] == Rest(p[2..], [p[1]]);
      assert ([acc] + Components(p[1..], ""))[1..] == Components(p[1..], "");
    }
  }

  /** The parser looks up exactly the components of the path exactly when the path is clean:
      it is neither empty nor the root alone, and has no two slashes in a row. Otherwise it
      looks up an empty name or a name that begins with a slash. */
  lemma ParsesComponentsExactly(path: string)
    ensures Tokens(path) == Components(path, "") <==> CleanPath(path)
  {
    if path != "" && path[0] == '/' {
      RestIsComponents(path[1..], "");
      assert Components(path, "") == Components(path[1..], "");
      if |path| > 1 && path[1] == '/' {
        assert path[1..][0] == '/';
        assert path[0] == '/' && path[0 + 1] == '/';
      } else {
        DoubleSlashTail(path, 1);
      }
    } else {
      RestIsComponents(path, "");
    }
  }
}
