/**
 How files get their names: server and client both strip the walked directory from a
 full path with Rust's `str::replace`, which removes every occurrence, not only the first.
 */
module Keys {
  import opened Paths

  /** `str::replace(pat, "")`: leftmost, non-overlapping. */
  function RemoveAll(s: string, pat: string): string
    requires pat != ""
    decreases |s|
  {
    if |s| < |pat| then s
    else if pat <= s then RemoveAll(s[|pat|..], pat)
    else [s[0]] + RemoveAll(s[1..], pat)
  }

  /** Key of the file at `p` under the directory `base`, on the server (cache and metadata alike). */
  function ServerKey(base: string, p: Path): string {
    RemoveAll(base + "/" + Join(p), base + "/")
  }

  /** Key of the local file at `p` under the uploaded directory `base`, on the client. */
  function ClientKey(base: string, p: Path): string
    requires base != ""
  {
    RemoveAll(base + "/" + Join(p), base)
  }

  /** Removal is the identity exactly on strings without an occurrence. */
  lemma {:induction false} RemoveAllIdentity(s: string, pat: string)
    requires pat != ""
    ensures |RemoveAll(s, pat)| <= |s|
    ensures RemoveAll(s, pat) == s <==> !Contains(s, pat)
    decreases |s|
  {
    if |s| < |pat| {
    } else if pat <= s {
      RemoveAllIdentity(s[|pat|..], pat);
    } else {
      RemoveAllIdentity(s[1..], pat);
      assert s == [s[0]] + s[1..];
      assert RemoveAll(s, pat)[1..] == RemoveAll(s[1..], pat);
    }
  }

  lemma RemoveLeading(pat: string, rest: string)
    requires pat != ""
    ensures RemoveAll(pat + rest, pat) == RemoveAll(rest, pat)
  {
  }

  /** A server key is the relative path exactly when that path does not contain the prefix again. */
  lemma ServerKeyIsRelativePath(base: string, p: Path)
    ensures ServerKey(base, p) == Join(p) <==> !Contains(Join(p), base + "/")
  {
    assert base + "/" + Join(p) == (base + "/") + Join(p);
    RemoveLeading(base + "/", Join(p));
    RemoveAllIdentity(Join(p), base + "/");
  }

  /** A client key is "/" and the relative path exactly when that does not contain the directory again. */
  lemma ClientKeyIsAbsolutePath(base: string, p: Path)
    requires base != ""
    ensures ClientKey(base, p) == "/" + Join(p) <==> !Contains("/" + Join(p), base)
  {
    assert base + "/" + Join(p) == base + ("/" + Join(p));
    RemoveLeading(base, "/" + Join(p));
    RemoveAllIdentity("/" + Join(p), base);
  }

  /** Where neither path contains the prefix again, different files have different keys. */
  lemma ServerKeysInjective(base: string, p: Path, q: Path)
    requires !Contains(Join(p), base + "/") && !Contains(Join(q), base + "/")
    requires ServerKey(base, p) == ServerKey(base, q)
    ensures p == q
  {
    ServerKeyIsRelativePath(base, p);
    ServerKeyIsRelativePath(base, q);
    JoinInjective(p, q);
  }

  /** Without that proviso two files can share a key, and one of them is lost from the snapshot. */
  lemma ServerKeyCollision()
    ensures ServerKey("d/1", ["d", "1", "x"]) == ServerKey("d/1", ["x"]) == "x"
  {
    var p: Path := ["d", "1", "x"];
    assert p[1..] == ["1", "x"] && p[1..][1..] == ["x"];
    assert Join(["x"]) == "x" && Join(["1", "x"]) == "1/x" && Join(p) == "d/1/x";
    RemoveLeading("d/1/", "d/1/x");
    RemoveLeading("d/1/", "x");
    assert "d/1" + "/" + "d/1/x" == "d/1/" + "d/1/x" && "d/1/" + "x" == "d/1/x";
    assert "d/1" + "/" + "x" == "d/1/" + "x";
  }

  lemma RemoveNothing()
    ensures RemoveAll("2/x", "/d") == "2/x"
  {
    assert RemoveAll("x", "/d") == "x";
    assert "/x"[1..] == "x";
    assert "/x"[1] != "/d"[1];
    assert RemoveAll("/x", "/d") == "/x";
    assert "2/x"[1..] == "/x";
  }

  /**
   The client's key too can lose part of a name: /d holding d2/x uploads it as "2/x". And that is a key
   the server can list: it is the key of 2/x there.
   */
  lemma ClientKeyMangled()
    ensures ClientKey("/d", ["d2", "x"]) == "2/x" == ServerKey("p/h.com/1", ["2", "x"])
  {
    var p, q: Path := ["d2", "x"], ["2", "x"];
    assert p[1..] == ["x"] == q[1..];
    assert Join(p) == "d2" + "/" + "x" == "d2/x" && Join(q) == "2" + "/" + "x" == "2/x";
    RemoveLeading("/d", "/d2/x");
    assert "/d" + "/" + "d2/x" == "/d" + "/d2/x" && "/d" + "2/x" == "/d2/x";
    RemoveLeading("/d", "2/x");
    RemoveNothing();
    ServerKeyIsRelativePath("p/h.com/1", q);
  }

  // Which client keys a server can list

  ghost predicate NoDoubleSlash(s: string) {
    forall i, j :: 0 <= i < j == i + 1 < |s| && s[i] == '/' ==> s[j] != '/'
  }

  ghost predicate NoEmptyPiece(s: string) {
    && (s != "" ==> s[0] != '/')
    && NoDoubleSlash(s)
  }

  /** No empty piece, not even at the end: the name of some file. */
  ghost predicate IsName(s: string) {
    s != "" && NoEmptyPiece(s) && s[|s| - 1] != '/'
  }

  lemma {:induction false} JoinHasNoEmptyPiece(p: Path)
    ensures NoEmptyPiece(Join(p))
    ensures p != [] ==> IsName(Join(p))
  {
    if |p| > 1 {
      JoinHasNoEmptyPiece(p[1..]);
      var s, head, rest := Join(p), p[0], Join(p[1..]);
      assert s[|s| - 1] == rest[|rest| - 1];
      forall i, j | 0 <= i < j == i + 1 < |s| && s[i] == '/' ensures s[j] != '/' {
        if i > |head| {
          assert s[i] == rest[i - |head| - 1] && s[j] == rest[i - |head|];
        } else if i == |head| {
          assert s[j] == rest[0];
        }
      }
    } else if |p| == 1 {
      assert Join(p) == p[0];
    }
  }

  lemma SuffixHasNoDoubleSlash(s: string, n: nat)
    requires NoDoubleSlash(s) && n <= |s|
    ensures NoDoubleSlash(s[n..])
  {
  }

  lemma NameGoesOn(name: string)
    requires IsName(name) && '/' in name
    ensures |name| > 1 && (name[1] == '/' ==> |name| > 2 && name[2] != '/')
  {
  }

  function LongerFirst(c: char, rest: Path): (p: Path)
    requires c != '/' && rest != []
    ensures p != [] && Join(p) == [c] + Join(rest)
  {
    var p: Path := [[c] + rest[0]] + rest[1..];
    assert p[1..] == rest[1..];
    if |p| > 1 then
      assert Join(p) == [c] + rest[0] + "/" + Join(rest[1..]);
      p
    else p
  }

  function NewFirst(name: string, rest: Path): (p: Path)
    requires |name| > 2 && name[0] != '/' && name[1] == '/' && rest != [] && Join(rest) == name[2..]
    ensures p != [] && Join(p) == name
  {
    var p: Path := [name[..1]] + rest;
    assert p[1..] == rest;
    assert name == name[..1] + "/" + name[2..];
    p
  }

  /** Every name is the name of a path. */
  function PathOf(name: string): (p: Path)
    requires IsName(name)
    ensures p != [] && Join(p) == name
  {
    if '/' !in name then [name]
    else
      var n := if name[1] == '/' then 2 else 1;
      SuffixHasNoDoubleSlash(name, n);
      NameGoesOn(name);
      var rest := PathOf(name[n..]);
      if n == 2 then NewFirst(name, rest) else LongerFirst(name[0], rest)
  }

  /** A server key is never empty and never starts with "/". */
  lemma {:induction false} RemovalStaysRelative(s: string, pat: string)
    requires pat != "" && pat[|pat| - 1] == '/' && NoEmptyPiece(s)
    ensures RemoveAll(s, pat) != "" ==> RemoveAll(s, pat)[0] != '/'
    ensures s != "" && s[|s| - 1] != '/' ==> RemoveAll(s, pat) != ""
    decreases |s|
  {
    if |pat| <= |s| && pat <= s {
      var rest := s[|pat|..];
      assert s[|pat| - 1] == '/';
      SuffixHasNoDoubleSlash(s, |pat|);
      RemovalStaysRelative(rest, pat);
    }
  }

  /** What is left of `s` after its leading repetitions of `pat`. */
  function Stripped(s: string, pat: string): (rest: string)
    requires pat != ""
    ensures !(pat <= rest) && |rest| <= |s| && rest == s[|s| - |rest|..]
    decreases |s|
  {
    if pat <= s then Stripped(s[|pat|..], pat) else s
  }

  lemma {:induction false} StrippedLosesNothing(s: string, pat: string)
    requires pat != ""
    ensures RemoveAll(Stripped(s, pat), pat) == RemoveAll(s, pat)
    decreases |s|
  {
    if pat <= s {
      StrippedLosesNothing(s[|pat|..], pat);
    }
  }

  /** No empty piece but perhaps a leading one. */
  ghost predicate IsTidy(s: string) {
    NoDoubleSlash(s) && (s != "" ==> s[|s| - 1] != '/')
  }

  lemma SuffixIsTidy(s: string, n: nat)
    requires IsTidy(s) && n <= |s|
    ensures IsTidy(s[n..])
  {
  }

  lemma SlashGoesOn(s: string)
    requires IsTidy(s) && s != "" && s[0] == '/'
    ensures |s| > 1 && s[1] != '/'
  {
  }

  lemma PrependIsTidy(c: char, s: string)
    requires IsTidy(s) && (c == '/' ==> s != "" && s[0] != '/')
    ensures IsTidy([c] + s)
  {
  }

  /** Removing an absolute directory leaves a tidy string tidy. */
  lemma {:induction false} RemovalStaysTidy(s: string, dir: string)
    requires dir != "" && dir[0] == '/' && IsTidy(s)
    ensures IsTidy(RemoveAll(s, dir))
    ensures s != "" && !(dir <= s) ==> RemoveAll(s, dir) != "" && RemoveAll(s, dir)[0] == s[0]
    decreases |s|
  {
    hide IsTidy;
    if |s| < |dir| {
    } else if dir <= s {
      SuffixIsTidy(s, |dir|);
      RemovalStaysTidy(s[|dir|..], dir);
    } else {
      SuffixIsTidy(s, 1);
      RemovalStaysTidy(s[1..], dir);
      if s[0] == '/' {
        SlashGoesOn(s);
        assert s[1..][0] != dir[0];
      }
      PrependIsTidy(s[0], RemoveAll(s[1..], dir));
    }
  }

  lemma AbsoluteNameIsTidy(q: Path)
    requires q != []
    ensures IsTidy("/" + Join(q))
  {
    JoinHasNoEmptyPiece(q);
    hide Join, NoDoubleSlash;
    PrependIsTidy('/', Join(q));
    assert ['/'] + Join(q) == "/" + Join(q);
  }

  /** Some file of a version at `serverBase` has the key `key`. */
  ghost predicate Listable(serverBase: string, key: string) {
    exists p: Path :: p != [] && ServerKey(serverBase, p) == key
  }

  /** The directory eats the "/" in front of the relative path, and not the whole path. */
  predicate LosesItsSlash(base: string, q: Path)
    requires base != ""
  {
    var rest := Stripped("/" + Join(q), base);
    rest != "" && rest[0] != '/'
  }

  lemma TidyIsName(s: string)
    requires IsTidy(s) && s != "" && s[0] != '/'
    ensures IsName(s)
  {
  }

  lemma ClientKeyOfRest(base: string, q: Path)
    requires base != ""
    ensures ClientKey(base, q) == RemoveAll(Stripped("/" + Join(q), base), base)
  {
    hide Join, RemoveAll, Stripped;
    assert base + "/" + Join(q) == base + ("/" + Join(q));
    RemoveLeading(base, "/" + Join(q));
    StrippedLosesNothing("/" + Join(q), base);
  }

  lemma RemoveFromNothing(pat: string)
    requires pat != ""
    ensures RemoveAll("", pat) == ""
  {
  }

  lemma ClientKeyStripped(base: string, q: Path)
    requires base != "" && base[0] == '/' && q != []
    ensures LosesItsSlash(base, q) <==> ClientKey(base, q) != "" && ClientKey(base, q)[0] != '/'
    ensures LosesItsSlash(base, q) ==> IsName(ClientKey(base, q))
  {
    hide IsTidy, IsName, Stripped, RemoveAll, Join, ClientKey;
    var name := "/" + Join(q);
    var rest := Stripped(name, base);
    ClientKeyOfRest(base, q);
    AbsoluteNameIsTidy(q);
    SuffixIsTidy(name, |name| - |rest|);
    RemovalStaysTidy(rest, base);
    if rest == "" {
      assert ClientKey(base, q) == "" by {
        RemoveFromNothing(base);
      }
    } else if LosesItsSlash(base, q) {
      TidyIsName(ClientKey(base, q));
    }
  }

  lemma ServerKeyNotAbsolute(serverBase: string, p: Path)
    requires p != []
    ensures ServerKey(serverBase, p) != "" && ServerKey(serverBase, p)[0] != '/'
  {
    var pat := serverBase + "/";
    assert serverBase + "/" + Join(p) == pat + Join(p);
    RemoveLeading(pat, Join(p));
    JoinHasNoEmptyPiece(p);
    RemovalStaysRelative(Join(p), pat);
  }

  /**
   A server can list the key that a client derives for `q` exactly when the local directory, repeated at
   the front of "/" and the relative path, takes the "/" away without taking everything. Then the key is itself
   the relative path of a file that has it under every version path it does not contain.
   */
  lemma ListableExactlyWhen(base: string, q: Path)
    requires base != "" && base[0] == '/' && q != []
    ensures (exists serverBase :: Listable(serverBase, ClientKey(base, q))) <==> LosesItsSlash(base, q)
    ensures LosesItsSlash(base, q) ==>
              forall serverBase :: !Contains(ClientKey(base, q), serverBase + "/") ==>
                Listable(serverBase, ClientKey(base, q))
  {
    var key := ClientKey(base, q);
    ClientKeyStripped(base, q);
    if LosesItsSlash(base, q) {
      var p := PathOf(key);
      forall serverBase | !Contains(key, serverBase + "/") ensures Listable(serverBase, key) {
        ServerKeyIsRelativePath(serverBase, p);
      }
      assert Listable(key, key);
    }
    forall serverBase | Listable(serverBase, key) ensures LosesItsSlash(base, q) {
      var p: Path :| p != [] && ServerKey(serverBase, p) == key;
      ServerKeyNotAbsolute(serverBase, p);
    }
  }

  /** In particular where the directory does not occur in "/" and the relative path. */
  lemma WholeKeyIsNotListable(base: string, q: Path, serverBase: string)
    requires base != "" && base[0] == '/' && q != [] && !Contains("/" + Join(q), base)
    ensures !LosesItsSlash(base, q) && !Listable(serverBase, ClientKey(base, q))
  {
    ClientKeyIsAbsolutePath(base, q);
    ClientKeyStripped(base, q);
    ListableExactlyWhen(base, q);
  }

  /** Where the pattern does occur, something goes. */
  lemma {:induction false} RemovalShortens(s: string, pat: string)
    requires pat != "" && Contains(s, pat)
    ensures |RemoveAll(s, pat)| + |pat| <= |s|
    decreases |s|
  {
    if pat <= s {
      RemoveAllIdentity(s[|pat|..], pat);
    } else {
      RemovalShortens(s[1..], pat);
    }
  }

  lemma {:induction false} RemoveSkips(front: string, rest: string, pat: string)
    requires pat != "" && forall i :: 0 <= i < |front| ==> !(pat <= (front + rest)[i..])
    ensures RemoveAll(front + rest, pat) == front + RemoveAll(rest, pat)
  {
    var s := front + rest;
    if front == "" {
      assert s == rest;
    } else {
      assert s[0..] == s;
      assert s[1..] == front[1..] + rest;
      forall i | 0 <= i < |front[1..]| ensures !(pat <= (front[1..] + rest)[i..]) {
        assert (front[1..] + rest)[i..] == s[i + 1..];
      }
      RemoveSkips(front[1..], rest, pat);
    }
  }

  function Repeat(c: char, n: nat): string {
    seq(n, _ => c)
  }

  lemma RepeatedAt(c: char, n: nat)
    ensures |Repeat(c, n)| == n && forall i :: 0 <= i < n ==> Repeat(c, n)[i] == c
  {
  }

  lemma DisguiseIsName(front: string, n: nat)
    requires 0 < n && NoDoubleSlash(front) && (front != "" ==> front[0] != '/')
    ensures IsName(front + (Repeat('z', n) + "/h/0"))
  {
  }

  lemma ShortIsKept(s: string, pat: string)
    requires |s| < |pat|
    ensures RemoveAll(s, pat) == s
  {
  }

  /** A pattern that starts with a run longer than what stands before it is found where it stands. */
  lemma RemoveInserted(front: string, last: string, pat: string, n: nat)
    requires |front| < n < |pat| && |last| < |pat|
    requires (forall i :: 0 <= i < n ==> pat[i] == 'z') && pat[n] == '/'
    ensures RemoveAll(front + (pat + last), pat) == front + last
  {
    hide RemoveAll;
    var name := front + (pat + last);
    forall i | 0 <= i < |front| ensures !(pat <= name[i..]) {
      assert name[i..][n] == name[i + n] == pat[i + n - |front|] == 'z';
    }
    RemoveSkips(front, pat + last, pat);
    RemoveLeading(pat, last);
    ShortIsKept(last, pat);
  }

  lemma PathWithVersion(front: string, base: string, last: Segment) returns (p: Path)
    requires IsName(front + base)
    ensures |p| > 1 && p[|p| - 1] == last && Join(p) == front + (base + "/" + last)
  {
    hide IsName, Join;
    var dir := PathOf(front + base);
    p := dir + [last];
    JoinAppend(dir, last);
    assert front + base + "/" + last == front + (base + "/" + last);
  }

  lemma ServerKeyOfJoin(base: string, p: Path)
    ensures ServerKey(base, p) == RemoveAll(Join(p), base + "/")
  {
  }

  lemma FrontHasNoDoubleSlash(key: string, n: nat)
    requires NoDoubleSlash(key) && n <= |key|
    ensures NoDoubleSlash(key[..n])
  {
  }

  /**
   Whatever the name `key`, even the marker's: a file that is not called so has that key, if its path is `key` with
   the version path inserted before the last character.
   */
  lemma DisguisedKey(key: string) returns (p: Path)
    requires IsName(key)
    ensures |p| > 1 && |p[|p| - 1]| == 1 && ServerKey(Repeat('z', |key|) + "/h/0", p) == key
  {
    var n := |key| - 1;
    var base, front, last: Segment := Repeat('z', |key|) + "/h/0", key[..n], key[n..];
    FrontHasNoDoubleSlash(key, n);
    hide NoDoubleSlash, Join, RemoveAll;
    DisguiseIsName(front, |key|);
    p := PathWithVersion(front, base, last);
    ServerKeyOfJoin(base, p);
    RepeatedAt('z', |key|);
    hide IsName, Repeat;
    RemoveInserted(front, last, base + "/", |key|);
    assert front + last == key;
  }
}
