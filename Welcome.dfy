/** getRelativePath of src/components/pages/welcome.tsx: the welcome page shows a recent file
    under a user's home directory as `~/…`. */
module Welcome {

  /** Whether `t` occurs in `s` at position `i`. */
  predicate OccursAt(s: string, t: string, i: nat)
  {
    i + |t| <= |s| && s[i..i + |t|] == t
  }

  /** Whether `t` occurs in `s` (`s.includes(t)`). */
  predicate Contains(s: string, t: string)
  {
    exists i | 0 <= i <= |s| :: OccursAt(s, t, i)
  }

  /** `s.split('/')`: the text between slashes, one more part than there are slashes. */
  function Split(s: string): (r: seq<string>)
    ensures |r| >= 1
    ensures forall k :: 0 <= k < |r| ==> '/' !in r[k]
  {
    if s == [] then [""]
    else if s[0] == '/' then [""] + Split(s[1..])
    else
      var rest := Split(s[1..]);
      [[s[0]] + rest[0]] + rest[1..]
  }

  /** `parts.join('/')`. */
  function Join(parts: seq<string>): string
  {
    if parts == [] then ""
    else if |parts| == 1 then parts[0]
    else parts[0] + "/" + Join(parts[1..])
  }

  /** `parts.findIndex(part => part === 'Users' || part === 'home')`. */
  function HomeIndex(parts: seq<string>): (r: int)
    ensures -1 <= r < |parts|
    ensures r >= 0 ==> (parts[r] == "Users" || parts[r] == "home") &&
                       forall k :: 0 <= k < r ==> parts[k] != "Users" && parts[k] != "home"
    ensures r == -1 ==> forall k :: 0 <= k < |parts| ==> parts[k] != "Users" && parts[k] != "home"
  {
    if parts == [] then -1
    else if parts[0] == "Users" || parts[0] == "home" then 0
    else
      var k := HomeIndex(parts[1..]);
      if k == -1 then -1 else k + 1
  }

  /** getRelativePath: the segments after the home folder and the user name, behind `~/`,
      for a path that mentions `/Users/` or `/home/`; any other path as it is. */
  function RelativePath(fullPath: string): (r: string)
    ensures r == fullPath || (|r| >= 2 && r[..2] == "~/")
    ensures !Contains(fullPath, "/Users/") && !Contains(fullPath, "/home/") ==> r == fullPath
  {
    if Contains(fullPath, "/Users/") || Contains(fullPath, "/home/") then
      var parts := Split(fullPath);
      var userIndex := HomeIndex(parts);
      if userIndex >= 0 && userIndex + 1 < |parts| then "~/" + Join(parts[userIndex + 2..])
      else fullPath
    else fullPath
  }

  lemma {:induction false} JoinCons(c: char, parts: seq<string>)
    requires |parts| >= 1
    ensures Join([[c] + parts[0]] + parts[1..]) == [c] + Join(parts)
  {
    var q := [[c] + parts[0]] + parts[1..];
    if |parts| > 1 {
      assert q[0] == [c] + parts[0] && q[1..] == parts[1..];
      assert Join(q) == ([c] + parts[0]) + "/" + Join(parts[1..]);
      assert Join(parts) == parts[0] + "/" + Join(parts[1..]);
      assert ([c] + parts[0]) + "/" + Join(parts[1..]) == [c] + (parts[0] + "/" + Join(parts[1..]));
    } else {
      assert q == [[c] + parts[0]];
    }
  }

  /** Splitting and joining again gives back the path. */
  lemma {:induction false} JoinSplit(s: string)
    ensures Join(Split(s)) == s
  {
    if s != [] {
      JoinSplit(s[1..]);
      if s[0] == '/' {
        assert ([""] + Split(s[1..]))[1..] == Split(s[1..]);
        assert s == "" + "/" + s[1..];
      } else {
        JoinCons(s[0], Split(s[1..]));
        assert s == [s[0]] + s[1..];
      }
    }
  }

  /** A string without a slash is one part. */
  lemma {:induction false} SplitNoSlash(s: string)
    requires '/' !in s
    ensures Split(s) == [s]
  {
    if s != [] {
      SplitNoSlash(s[1..]);
      assert s == [s[0]] + s[1..];
    }
  }

  /** A slash separates the parts before it from the parts after it. */
  lemma {:induction false} SplitAtSlash(a: string, b: string)
    ensures Split(a + "/" + b) == Split(a) + Split(b)
  {
    var s := a + "/" + b;
    if a == [] {
      assert s == ['/'] + b;
      assert s[1..] == b;
    } else {
      assert s[0] == a[0];
      assert s[1..] == a[1..] + "/" + b;
      SplitAtSlash(a[1..], b);
    }
  }

  /** The home folder names contain no slash. */
  lemma {:induction false} HomeNameNoSlash(name: string)
    requires name == "Users" || name == "home"
    ensures '/' !in name
  {
    assert forall k | 0 <= k < |name| :: name[k] != '/';
  }

  /** The text around an occurrence. */
  lemma {:induction false} AroundOccurrence(s: string, t: string, i: nat)
    requires OccursAt(s, t, i)
    ensures s == s[..i] + t + s[i + |t|..]
  {
    assert s == s[..i] + s[i..i + |t|] + s[i + |t|..];
  }

  /** The parts around a slash-delimited name. */
  lemma {:induction false} SplitAround(x: string, name: string, y: string)
    requires '/' !in name
    ensures Split(x + ("/" + name + "/") + y) == Split(x) + ([name] + Split(y))
  {
    assert x + ("/" + name + "/") + y == x + "/" + (name + "/" + y);
    SplitAtSlash(x, name + "/" + y);
    SplitAtSlash(name, y);
    SplitNoSlash(name);
  }

  /** A path that passes the substring test has a `Users` or `home` part that is not the
      last part. */
  lemma {:induction false} HomePart(fullPath: string, name: string) returns (j: nat)
    requires name == "Users" || name == "home"
    requires Contains(fullPath, "/" + name + "/")
    ensures var parts := Split(fullPath);
            j + 1 < |parts| && parts[j] == name
  {
    var t := "/" + name + "/";
    var i :| 0 <= i <= |fullPath| && OccursAt(fullPath, t, i);
    var x := fullPath[..i];
    var y := fullPath[i + |t|..];
    AroundOccurrence(fullPath, t, i);
    HomeNameNoSlash(name);
    SplitAround(x, name, y);
    j := |Split(x)|;
  }

  /** The value getRelativePath returns once the substring test passed and the home part
      was found before the last part. */
  lemma {:induction false} RelativePathAt(fullPath: string, k: int)
    requires Contains(fullPath, "/Users/") || Contains(fullPath, "/home/")
    requires k == HomeIndex(Split(fullPath)) && 0 <= k && k + 1 < |Split(fullPath)|
    ensures RelativePath(fullPath) == "~/" + Join(Split(fullPath)[k + 2..])
  {
  }

  /** A path mentioning a home folder passes the bounds check. */
  lemma {:induction false} MentionedHome(fullPath: string) returns (k: int)
    requires Contains(fullPath, "/Users/") || Contains(fullPath, "/home/")
    ensures k == HomeIndex(Split(fullPath)) && 0 <= k && k + 1 < |Split(fullPath)|
  {
    var name := if Contains(fullPath, "/Users/") then "Users" else "home";
    assert "/" + name + "/" == if name == "Users" then "/Users/" else "/home/";
    var j := HomePart(fullPath, name);
    k := HomeIndex(Split(fullPath));
    assert 0 <= k <= j;
  }

  /** Whenever the substring test passes, the bounds check passes too, so such a path is
      always shown with `~/`; every other path is shown unchanged. */
  lemma {:induction false} RelativePathShape(fullPath: string)
    ensures Contains(fullPath, "/Users/") || Contains(fullPath, "/home/") ==>
            var parts := Split(fullPath);
            var k := HomeIndex(parts);
            0 <= k && k + 1 < |parts| && RelativePath(fullPath) == "~/" + Join(parts[k + 2..])
    ensures !Contains(fullPath, "/Users/") && !Contains(fullPath, "/home/") ==> RelativePath(fullPath) == fullPath
  {
    if Contains(fullPath, "/Users/") || Contains(fullPath, "/home/") {
      var k := MentionedHome(fullPath);
      RelativePathAt(fullPath, k);
    }
  }

  /** The parts of `/<home>/<user>/<rest>`. */
  lemma {:induction false} SplitUnderHome(home: string, user: string, rest: string)
    requires '/' !in home && '/' !in user
    ensures Split("/" + home + "/" + user + "/" + rest) == [""] + ([home] + ([user] + Split(rest)))
  {
    var p := "/" + home + "/" + user + "/" + rest;
    assert p == "" + "/" + (home + "/" + (user + "/" + rest));
    SplitAtSlash("", home + "/" + (user + "/" + rest));
    SplitAtSlash(home, user + "/" + rest);
    SplitAtSlash(user, rest);
    SplitNoSlash(home);
    SplitNoSlash(user);
  }

  /** A path starting with `/home/` or `/Users/` passes the substring test. */
  lemma {:induction false} StartsWithHome(p: string, home: string)
    requires home == "home" || home == "Users"
    requires |p| >= |home| + 2 && p[..|home| + 2] == "/" + home + "/"
    ensures Contains(p, "/Users/") || Contains(p, "/home/")
  {
    assert OccursAt(p, "/" + home + "/", 0);
    assert "/" + home + "/" == "/Users/" || "/" + home + "/" == "/home/";
  }

  /** The parts of a path under a home folder: the home part is the second one. */
  lemma {:induction false} SecondPartIsHome(parts: seq<string>)
    requires |parts| >= 3 && parts[0] == "" && (parts[1] == "home" || parts[1] == "Users")
    ensures HomeIndex(parts) == 1
  {
    assert parts[1..][0] == parts[1];
  }

  /** `/home/<user>/<rest>` and `/Users/<user>/<rest>` are shown as `~/<rest>`. */
  lemma {:induction false} UnderHome(home: string, user: string, rest: string)
    requires home == "home" || home == "Users"
    requires '/' !in user
    ensures RelativePath("/" + home + "/" + user + "/" + rest) == "~/" + rest
  {
    var p := "/" + home + "/" + user + "/" + rest;
    assert p[..|home| + 2] == "/" + home + "/";
    StartsWithHome(p, home);
    HomeNameNoSlash(home);
    SplitUnderHome(home, user, rest);
    var parts := Split(p);
    SecondPartIsHome(parts);
    RelativePathAt(p, 1);
    assert parts[3..] == Split(rest);
    JoinSplit(rest);
  }

  /** The home directory itself, `/home/<user>`, is shown as `~/`. */
  lemma {:induction false} HomeItself(home: string, user: string)
    requires home == "home" || home == "Users"
    requires '/' !in user
    ensures RelativePath("/" + home + "/" + user) == "~/"
  {
    var p := "/" + home + "/" + user;
    assert p[..|home| + 2] == "/" + home + "/";
    StartsWithHome(p, home);
    HomeNameNoSlash(home);
    var parts := HomeItselfParts(home, user);
    SecondPartIsHome(parts);
    RelativePathAt(p, 1);
    assert parts[3..] == [];
  }

  lemma {:induction false} HomeItselfParts(home: string, user: string) returns (parts: seq<string>)
    requires '/' !in home && '/' !in user
    ensures parts == Split("/" + home + "/" + user) && parts == [""] + ([home] + [user])
  {
    var p := "/" + home + "/" + user;
    assert p == "" + "/" + (home + "/" + user);
    SplitAtSlash("", home + "/" + user);
    SplitAtSlash(home, user);
    SplitNoSlash(home);
    SplitNoSlash(user);
    parts := Split(p);
  }

  /** A pin on one concrete path, beside the general UnderHome and RelativePathShape:
      `/home/alice/notes/j.jb` is shown as `~/notes/j.jb`. */
  lemma {:induction false} RelativePathExample(fullPath: string)
    requires fullPath == "/home/alice/notes/j.jb"
    ensures RelativePath(fullPath) == "~/notes/j.jb"
  {
    ExamplePathParts();
    UnderHome("home", "alice", "notes/j.jb");
  }

  lemma {:induction false} ExamplePathParts()
    ensures "/home/alice/notes/j.jb" == "/" + "home" + "/" + "alice" + "/" + "notes/j.jb"
    ensures '/' !in "alice"
  {
    var a := "/" + "home" + "/";
    assert a == "/home/";
    var b := a + "alice" + "/";
    assert b == "/home/alice/";
    assert b + "notes/j.jb" == "/home/alice/notes/j.jb";
    assert forall k | 0 <= k < 5 :: "alice"[k] != '/';
  }
}
