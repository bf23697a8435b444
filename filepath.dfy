/** Go's path/filepath.Clean for slash-separated (Unix) paths: the shortest
    lexically equivalent path. */
module FilePath {
  import opened GoStrings

  /** A path element that survives cleaning: non-empty and free of separators. */
  ghost predicate IsElement(e: string)
  {
    e != [] && !Contains(e, "/")
  }

  lemma DotDotIsElement()
    ensures IsElement("..")
  {
    forall i: nat ensures !OccursAt("..", "/", i) {
      if i + 1 <= 2 {
        assert ".."[i..i + 1] == [ '.' ];
      }
    }
  }

  /** Processes the raw elements left to right against the stack `kept` of
      elements already accepted: empty and "." elements vanish, ".." removes
      the previous real element, is dropped at the root of a rooted path, and
      is kept at the front of a relative one. */
  function Resolve(kept: seq<string>, elems: seq<string>, rooted: bool): (r: seq<string>)
    requires forall k :: 0 <= k < |kept| ==> IsElement(kept[k])
    requires forall k :: 0 <= k < |elems| ==> !Contains(elems[k], "/")
    ensures forall k :: 0 <= k < |r| ==> IsElement(r[k])
    decreases |elems|
  {
    if elems == [] then kept
    else
      var e := elems[0];
      DotDotIsElement();
      var next :=
        if e == "" || e == "." then kept
        else if e == ".." then
          if |kept| > 0 && kept[|kept| - 1] != ".." then kept[..|kept| - 1]
          else if rooted then kept
          else kept + [".."]
        else kept + [e];
      Resolve(next, elems[1..], rooted)
  }

  lemma {:induction false} JoinEnds(elems: seq<string>)
    requires elems != []
    requires forall k :: 0 <= k < |elems| ==> elems[k] != []
    ensures var j := Join(elems, "/");
      j != [] && j[0] == elems[0][0] && j[|j| - 1] == elems[|elems| - 1][|elems[|elems| - 1]| - 1]
    decreases |elems|
  {
    if |elems| > 1 {
      JoinEnds(elems[1..]);
    }
  }

  lemma NoSlashAtStart(e: string)
    requires IsElement(e)
    ensures e[0] != '/' && e[|e| - 1] != '/'
  {
    assert !OccursAt(e, "/", 0);
    assert !OccursAt(e, "/", |e| - 1);
    assert e[0..1] == [e[0]];
    assert e[|e| - 1..|e|] == [e[|e| - 1]];
  }

  /** filepath.Clean. The result is never empty ("." stands for the empty
      path), starts with a slash exactly when the input does, and ends with a
      slash only when it is the root "/" itself. */
  function Clean(path: string): (r: string)
    ensures r != []
    ensures r[0] == '/' <==> path != [] && path[0] == '/'
    ensures r[|r| - 1] == '/' ==> r == "/"
  {
    var rooted := path != [] && path[0] == '/';
    var elems := Resolve([], Split(path, "/"), rooted);
    var body := Join(elems, "/");
    assert body != [] ==> body[0] != '/' && body[|body| - 1] != '/' by {
      if elems != [] {
        JoinEnds(elems);
        NoSlashAtStart(elems[0]);
        NoSlashAtStart(elems[|elems| - 1]);
      }
    }
    if rooted then "/" + body
    else if body == [] then "."
    else body
  }

  /** An element that cleaning keeps as it is: non-empty, free of '/', and
      neither "." nor "..". */
  predicate IsPlain(e: string)
  {
    e != "" && e != "." && e != ".." && forall k :: 0 <= k < |e| ==> e[k] != '/'
  }

  /** A string with no '/' character holds no "/". */
  lemma NoSlash(e: string)
    requires forall k :: 0 <= k < |e| ==> e[k] != '/'
    ensures !Contains(e, "/")
  {
    forall j: nat ensures !OccursAt(e, "/", j) {
      OccursAtChar(e, '/', j);
    }
  }

  /** Splitting on "/" undoes joining with "/" elements that hold no "/". */
  lemma {:induction false} SplitJoinSlash(elems: seq<string>)
    requires elems != []
    requires forall k :: 0 <= k < |elems| ==> !Contains(elems[k], "/")
    ensures Split(Join(elems, "/"), "/") == elems
    decreases |elems|
  {
    if |elems| > 1 {
      var e := elems[0];
      var rest := Join(elems[1..], "/");
      var s := Join(elems, "/");
      assert s == e + "/" + rest;
      OccursAtChar(s, '/', |e|);
      forall j: nat | j < |e| ensures !OccursAt(s, "/", j) {
        OccursAtChar(s, '/', j);
        OccursAtChar(e, '/', j);
        assert s[j] == e[j];
      }
      var r := Index(s, "/");
      assert r == |e|;
      assert s[..r] == e;
      assert s[r + 1..] == rest;
      SplitJoinSlash(elems[1..]);
    }
  }

  lemma {:induction false} ResolvePlain(kept: seq<string>, elems: seq<string>, rooted: bool)
    requires forall k :: 0 <= k < |kept| ==> IsElement(kept[k])
    requires forall k :: 0 <= k < |elems| ==> IsPlain(elems[k])
    ensures forall k :: 0 <= k < |elems| ==> !Contains(elems[k], "/")
    ensures Resolve(kept, elems, rooted) == kept + elems
    decreases |elems|
  {
    forall k | 0 <= k < |elems| ensures !Contains(elems[k], "/") {
      NoSlash(elems[k]);
    }
    if elems != [] {
      assert forall k :: 0 <= k < |elems| - 1 ==> elems[1..][k] == elems[k + 1];
      assert IsElement(elems[0]);
      ResolvePlain(kept + [elems[0]], elems[1..], rooted);
      assert kept + [elems[0]] + elems[1..] == kept + elems;
    }
  }

  /** The raw elements of a rooted path: an empty one before the leading
      slash, then the elements joined after it. */
  function RootedElements(elems: seq<string>): seq<string>
  {
    if elems == [] then ["", ""] else [""] + elems
  }

  lemma JoinRooted(elems: seq<string>)
    ensures Join(RootedElements(elems), "/") == "/" + Join(elems, "/")
  {
    var raw := RootedElements(elems);
    if elems == [] {
      assert Join(raw, "/") == "" + "/" + Join([""], "/");
    } else {
      assert raw[1..] == elems;
      assert Join(raw, "/") == "" + "/" + Join(elems, "/");
    }
  }

  lemma RootedNoSlash(elems: seq<string>)
    requires forall k :: 0 <= k < |elems| ==> IsPlain(elems[k])
    ensures forall k :: 0 <= k < |RootedElements(elems)| ==> !Contains(RootedElements(elems)[k], "/")
  {
    var raw := RootedElements(elems);
    forall k | 0 <= k < |raw| ensures !Contains(raw[k], "/") {
      if k > 0 && elems != [] {
        assert raw[k] == elems[k - 1];
      }
      NoSlash(raw[k]);
    }
  }

  lemma SplitRooted(elems: seq<string>)
    requires forall k :: 0 <= k < |elems| ==> IsPlain(elems[k])
    ensures Split("/" + Join(elems, "/"), "/") == RootedElements(elems)
  {
    JoinRooted(elems);
    RootedNoSlash(elems);
    SplitJoinSlash(RootedElements(elems));
  }

  lemma ResolveRooted(elems: seq<string>)
    requires forall k :: 0 <= k < |elems| ==> IsPlain(elems[k])
    ensures forall k :: 0 <= k < |RootedElements(elems)| ==> !Contains(RootedElements(elems)[k], "/")
    ensures Resolve([], RootedElements(elems), true) == elems
  {
    var raw := RootedElements(elems);
    ResolvePlain([], elems, true);
    assert !Contains("", "/");
    assert forall k :: 0 < k < |raw| && elems != [] ==> raw[k] == elems[k - 1];
    assert raw[1..] == (if elems == [] then [""] else elems);
    if elems == [] {
      assert raw[1..][1..] == [];
    }
  }

  /** A rooted path whose elements are all plain is already clean. */
  lemma CleanRootedPlain(elems: seq<string>)
    requires forall k :: 0 <= k < |elems| ==> IsPlain(elems[k])
    ensures Clean("/" + Join(elems, "/")) == "/" + Join(elems, "/")
  {
    SplitRooted(elems);
    ResolveRooted(elems);
  }
}
