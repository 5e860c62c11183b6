/** MQTT topic filters: the client's two-pointer matcher against a relation on topic levels, and the
    message dispatch built on it. */
module Topics {

  // ---------- levels ----------

  /** The levels of a topic: what stands between its slashes.  There is always at least one. */
  function Levels(s: string): (r: seq<string>)
    ensures |r| > 0
  {
    if s == "" then [""]
    else if s[0] == '/' then [""] + Levels(s[1..])
    else
      var r := Levels(s[1..]);
      [[s[0]] + r[0]] + r[1..]
  }

  function Join(levels: seq<string>): string
    requires |levels| > 0
  {
    if |levels| == 1 then levels[0] else levels[0] + "/" + Join(levels[1..])
  }

  /** Levels is the inverse of joining with slashes. */
  lemma {:induction false} LevelsSplit(s: string)
    ensures Join(Levels(s)) == s
    ensures forall l :: l in Levels(s) ==> '/' !in l
  {
    if s == "" {
    } else {
      LevelsSplit(s[1..]);
      var r := Levels(s[1..]);
      if s[0] != '/' {
        assert Levels(s)[1..] == r[1..];
        assert s == [s[0]] + s[1..];
        assert Join(Levels(s)) == [s[0]] + Join(r);
      } else {
        assert Levels(s)[1..] == r;
        assert s == "/" + s[1..];
      }
    }
  }

  predicate Plain(level: string) { '+' !in level && '#' !in level }

  /** + and # stand alone in their level, and # only in the last one. */
  ghost predicate WellFormedLevels(fs: seq<string>)
  {
    forall i :: 0 <= i < |fs| ==> fs[i] == "+" || (fs[i] == "#" && i == |fs| - 1) || Plain(fs[i])
  }

  ghost predicate WellFormed(filter: string) { WellFormedLevels(Levels(filter)) }

  // ---------- what the matcher decides ----------

  /** Level by level: + matches one level that is not empty, a final # the remaining levels when there
      is one and it does not start with an empty one, and any other level itself. */
  ghost predicate LevelsMatch(fs: seq<string>, ns: seq<string>)
    decreases |fs|
  {
    if fs == [] then ns == []
    else if ns == [] then false
    else if fs[0] == "#" then ns[0] != ""
    else (if fs[0] == "+" then ns[0] != "" else fs[0] == ns[0]) && LevelsMatch(fs[1..], ns[1..])
  }

  /** The matcher's moves on the unread parts of filter and name. */
  ghost predicate Moves(f: string, n: string)
    decreases |f|
  {
    if f == "" || n == "" then f == "" && n == ""
    else if n[0] == '/' && f[0] != '/' then false
    else if f[0] != '+' && f[0] != '#' && f[0] != n[0] then false
    else if f[0] == '+' then Moves(f[1..], AfterLevel(n))
    else if f[0] == '#' then Moves(f[1..], "")
    else Moves(f[1..], n[1..])
  }

  /** The name behind its first level: empty, or starting with the slash. */
  ghost function AfterLevel(n: string): string
  {
    if n == "" || n[0] == '/' then n else AfterLevel(n[1..])
  }

  lemma {:induction false} AfterLevelLevels(n: string)
    ensures Levels(AfterLevel(n)) == [""] + Levels(n)[1..]
  {
    if n == "" {
    } else if n[0] == '/' {
      assert Levels(n)[1..] == Levels(n[1..]);
    } else {
      AfterLevelLevels(n[1..]);
      assert Levels(n)[1..] == Levels(n[1..])[1..];
    }
  }

  lemma WildcardAlone(f: string)
    requires WellFormed(f) && f != "" && (f[0] == '+' || f[0] == '#')
    ensures Levels(f)[0] == [f[0]]
    ensures Levels(f[1..]) == [""] + Levels(f)[1..]
    ensures f[0] == '#' ==> f == "#"
  {
    var fs, r := Levels(f), Levels(f[1..]);
    assert f[0] in fs[0];
    assert fs[0] == [f[0]] + r[0];
    assert fs[1..] == r[1..];
    if f[0] == '#' {
      LevelsSplit(f);
      assert |fs| == 1;
      assert f == Join(fs) == "#";
    }
  }

  lemma LevelsTail(s: string)
    requires s != ""
    ensures s[0] == '/' ==> Levels(s)[0] == "" && Levels(s[1..]) == Levels(s)[1..]
    ensures s[0] != '/' ==>
              Levels(s[1..]) == [Levels(s)[0][1..]] + Levels(s)[1..] && Levels(s)[0] == [s[0]] + Levels(s[1..])[0]
  {
    if s[0] == '/' {
      assert Levels(s)[1..] == Levels(s[1..]);
    } else {
      assert Levels(s)[1..] == Levels(s[1..])[1..];
    }
  }

  lemma WellFormedTail(f: string)
    requires WellFormed(f) && f != ""
    ensures WellFormed(f[1..])
    ensures f[0] != '/' && f[0] != '+' && f[0] != '#' ==> Plain(Levels(f)[0])
  {
    var fs, r := Levels(f), Levels(f[1..]);
    LevelsTail(f);
    if f[0] == '/' {
      assert forall i :: 0 <= i < |r| ==> r[i] == fs[i + 1];
    } else if f[0] == '+' || f[0] == '#' {
      WildcardAlone(f);
    } else {
      assert fs[0][0] == f[0];
      assert Plain(fs[0]);
      assert Plain(r[0]) by {
        assert forall c :: c in r[0] ==> c in fs[0];
      }
      assert forall i :: 1 <= i < |r| ==> r[i] == fs[i];
    }
  }

  /** The moves decide the level relation, for every well-formed filter and every name. */
  lemma {:induction false} MovesMatch(f: string, n: string)
    requires WellFormed(f)
    ensures Moves(f, n) <==> LevelsMatch(Levels(f), Levels(n))
    decreases |f|
  {
    var fs, ns := Levels(f), Levels(n);
    if f == "" {
      EmptyFilter(n);
    } else if n == "" {
      EmptyName(f);
    } else {
      LevelsTail(f);
      LevelsTail(n);
      WellFormedTail(f);
      if f[0] == '/' {
        MovesMatch(f[1..], n[1..]);
      } else if f[0] == '#' {
        WildcardAlone(f);
      } else if f[0] == '+' {
        WildcardAlone(f);
        MovesMatch(f[1..], AfterLevel(n));
        AfterLevelLevels(n);
        StripEmpty(fs[1..], ns[1..]);
      } else {
        MovesMatch(f[1..], n[1..]);
        PlainTail(fs, ns, f[0], n[0], Levels(f[1..]), Levels(n[1..]));
      }
    }
  }

  lemma EmptyFilter(n: string)
    ensures n == "" <==> LevelsMatch([""], Levels(n))
  {
    if n != "" {
      LevelsTail(n);
    }
  }

  lemma EmptyName(f: string)
    requires f != ""
    ensures !LevelsMatch(Levels(f), [""])
  {
    LevelsTail(f);
    if f[0] == '/' {
      assert !LevelsMatch(Levels(f)[1..], []);
    }
  }

  lemma StripEmpty(fs: seq<string>, ns: seq<string>)
    ensures LevelsMatch([""] + fs, [""] + ns) <==> LevelsMatch(fs, ns)
  {
    assert ([""] + fs)[1..] == fs && ([""] + ns)[1..] == ns;
  }

  /** One equal character less at the head of two levels. */
  lemma PlainTail(fs: seq<string>, ns: seq<string>, c: char, d: char, ft: seq<string>, nt: seq<string>)
    requires |fs| > 0 && |ns| > 0 && |ft| > 0 && |nt| > 0 && Plain(fs[0]) && Plain(ft[0])
    requires c != '/' && fs[0] == [c] + ft[0] && fs[1..] == ft[1..]
    requires if d == '/' then ns[0] == "" else ns[0] == [d] + nt[0] && ns[1..] == nt[1..]
    ensures d == '/' || c != d ==> !LevelsMatch(fs, ns)
    ensures d != '/' && c == d ==> (LevelsMatch(fs, ns) <==> LevelsMatch(ft, nt))
  {
    assert fs[0][0] == c && fs[0] != "#" && fs[0] != "+" by {
      assert c in fs[0];
    }
    assert ft[0] != "#" && ft[0] != "+";
    if d != '/' {
      assert ns[0][0] == d;
      assert fs[0] == ns[0] <==> c == d && ft[0] == nt[0] by {
        assert fs[0][1..] == ft[0] && ns[0][1..] == nt[0];
      }
    }
  }

  // ---------- the matcher ----------

  /** The client's matcher, on the filter's C string and the name's buffer. */
  method IsTopicMatched(filter: string, name: string) returns (matched: bool)
    requires WellFormed(filter)
    ensures matched <==> LevelsMatch(Levels(filter), Levels(name))
  {
    MovesMatch(filter, name);
    var curf, curn := 0, 0;
    while curf < |filter| && curn < |name|
      invariant 0 <= curf <= |filter| && 0 <= curn <= |name|
      invariant WellFormed(filter[curf..])
      invariant Moves(filter, name) <==> Moves(filter[curf..], name[curn..])
    {
      ghost var f, n := filter[curf..], name[curn..];
      if name[curn] == '/' && filter[curf] != '/' {
        break;
      }
      if filter[curf] != '+' && filter[curf] != '#' && filter[curf] != name[curn] {
        break;
      }
      WellFormedTail(f);
      if filter[curf] == '+' {
        var nextpos := curn + 1;
        while nextpos < |name| && name[nextpos] != '/'
          invariant nextpos == curn + 1 && curn < |name| && name[curn] != '/'
          invariant AfterLevel(n) == AfterLevel(name[curn..])
        {
          assert name[curn..][1..] == name[curn + 1..];
          curn := curn + 1;
          nextpos := curn + 1;
        }
        assert name[curn..][1..] == name[curn + 1..];
      } else if filter[curf] == '#' {
        WildcardAlone(f);
        curn := |name| - 1;
      }
      assert f[1..] == filter[curf + 1..];
      assert filter[curf] != '+' && filter[curf] != '#' ==> n[1..] == name[curn + 1..];
      curf := curf + 1;
      curn := curn + 1;
    }
    matched := curn == |name| && curf == |filter|;
  }

  // ---------- the standard's relation ----------

  /** Section 4.7.1 of MQTT 3.1.1: + matches exactly one level, a final # any number of further levels
      and the parent level itself. */
  ghost predicate StandardMatch(fs: seq<string>, ns: seq<string>)
    decreases |fs|
  {
    if fs == [] then ns == []
    else if fs[0] == "#" then true
    else ns != [] && (fs[0] == "+" || fs[0] == ns[0]) && StandardMatch(fs[1..], ns[1..])
  }

  /** The filter ends in # and the name is the parent of what it covers. */
  predicate IsParent(fs: seq<string>, ns: seq<string>)
  {
    fs != [] && fs[|fs| - 1] == "#" && |ns| + 1 == |fs|
  }

  /** A wildcard stands where the name has an empty level. */
  ghost predicate WildcardMeetsEmpty(fs: seq<string>, ns: seq<string>)
  {
    exists i :: 0 <= i < |fs| && i < |ns| && !Plain(fs[i]) && ns[i] == ""
  }

  /** For every name the matcher decides the standard's relation, except that # does not match the parent
      level and neither wildcard an empty one. */
  lemma {:induction false} MatchesStandard(fs: seq<string>, ns: seq<string>)
    requires WellFormedLevels(fs)
    ensures LevelsMatch(fs, ns) <==> StandardMatch(fs, ns) && !IsParent(fs, ns) && !WildcardMeetsEmpty(fs, ns)
    decreases |fs|
  {
    if fs == [] || ns == [] {
    } else {
      var ft, nt := fs[1..], ns[1..];
      PlainExactly(fs[0]);
      MeetsEmptyTail(fs, ns);
      if fs[0] == "#" {
        assert |fs| == 1;
        assert !WildcardMeetsEmpty(ft, nt);
      } else {
        assert WellFormedLevels(ft) by {
          assert forall i :: 0 <= i < |ft| ==> ft[i] == fs[i + 1];
        }
        MatchesStandard(ft, nt);
        assert |fs| > 1 ==> ft[|ft| - 1] == fs[|fs| - 1];
      }
    }
  }

  lemma PlainExactly(level: string)
    ensures level == "+" || level == "#" ==> !Plain(level)
  {
    assert "+"[0] == '+' && "#"[0] == '#';
  }

  lemma MeetsEmptyTail(fs: seq<string>, ns: seq<string>)
    requires fs != [] && ns != []
    ensures WildcardMeetsEmpty(fs, ns) <==> (!Plain(fs[0]) && ns[0] == "") || WildcardMeetsEmpty(fs[1..], ns[1..])
  {
    var ft, nt := fs[1..], ns[1..];
    if WildcardMeetsEmpty(ft, nt) {
      var i :| 0 <= i < |ft| && i < |nt| && !Plain(ft[i]) && nt[i] == "";
      assert !Plain(fs[i + 1]) && ns[i + 1] == "";
    }
    if WildcardMeetsEmpty(fs, ns) {
      var i :| 0 <= i < |fs| && i < |ns| && !Plain(fs[i]) && ns[i] == "";
      assert i > 0 ==> !Plain(ft[i - 1]) && nt[i - 1] == "";
    }
  }

  /** On names without empty levels only the parent level makes a difference. */
  lemma MatchesStandardFully(filter: string, name: string)
    requires WellFormed(filter) && "" !in Levels(name)
    ensures LevelsMatch(Levels(filter), Levels(name))
       <==> StandardMatch(Levels(filter), Levels(name)) && !IsParent(Levels(filter), Levels(name))
  {
    MatchesStandard(Levels(filter), Levels(name));
  }

  /** The empty level is a real difference: the filter +/+ and the name /finance, for one. */
  lemma EmptyLevelNotMatched(level: string)
    ensures WellFormedLevels(["+", "+"]) && WellFormedLevels(["#"])
    ensures StandardMatch(["+", "+"], ["", level]) && !LevelsMatch(["+", "+"], ["", level])
    ensures StandardMatch(["#"], ["", level]) && !LevelsMatch(["#"], ["", level])
  {
    assert ["+", "+"][1..] == ["+"] && ["", level][1..] == [level] && ["+"][1..] == [] && [level][1..] == [];
  }

  /** The parent level is a real difference: a filter a/# and the name a. */
  lemma ParentNotMatched(level: string)
    requires Plain(level) && level != ""
    ensures WellFormedLevels([level, "#"])
    ensures StandardMatch([level, "#"], [level]) && !LevelsMatch([level, "#"], [level])
  {
    assert level != "#" by {
      assert '#' !in level;
      assert "#"[0] == '#';
    }
    assert [level, "#"][1..] == ["#"] && [level][1..] == [];
  }

  // ---------- dispatch ----------

  datatype Handler = Handler(filter: string, hasFunction: bool) | Unused

  ghost predicate Addressed(h: Handler, name: string)
  {
    h.Handler? && (h.filter == name || LevelsMatch(Levels(h.filter), Levels(name)))
  }

  ghost function Receivers(handlers: seq<Handler>, name: string): (r: seq<nat>)
    ensures forall j :: 0 <= j < |r| ==> r[j] < |handlers|
    ensures forall j, k :: 0 <= j < k < |r| ==> r[j] < r[k]
  {
    if handlers == [] then []
    else
      var n := |handlers| - 1;
      var r := Receivers(handlers[..n], name);
      if Addressed(handlers[n], name) && handlers[n].hasFunction then r + [n] else r
  }

  /** Every registered handler whose filter equals or matches the topic gets the message, in order; the
      default handler gets it exactly when none did. */
  method DeliverMessage(handlers: seq<Handler>, name: string, hasDefault: bool)
      returns (called: seq<nat>, defaultCalled: bool, success: bool)
    requires forall i :: 0 <= i < |handlers| && handlers[i].Handler? ==> WellFormed(handlers[i].filter)
    ensures called == Receivers(handlers, name)
    ensures defaultCalled <==> called == [] && hasDefault
    ensures success <==> called != [] || defaultCalled
  {
    called, success := [], false;
    for i := 0 to |handlers|
      invariant called == Receivers(handlers[..i], name)
      invariant success <==> called != []
    {
      assert handlers[..i + 1][..i] == handlers[..i];
      if handlers[i].Handler? {
        var matched := handlers[i].filter == name;
        if !matched {
          matched := IsTopicMatched(handlers[i].filter, name);
        }
        if matched && handlers[i].hasFunction {
          called := called + [i];
          success := true;
        }
      }
    }
    assert handlers[..|handlers|] == handlers;
    defaultCalled := false;
    if !success && hasDefault {
      defaultCalled := true;
      success := true;
    }
  }

  lemma {:induction false} ReceiversExactly(handlers: seq<Handler>, name: string, i: nat)
    requires i < |handlers|
    ensures i in Receivers(handlers, name) <==>
      handlers[i].Handler? && handlers[i].hasFunction
      && (handlers[i].filter == name || LevelsMatch(Levels(handlers[i].filter), Levels(name)))
  {
    var n := |handlers| - 1;
    if i < n {
      ReceiversExactly(handlers[..n], name, i);
    } else {
      assert forall j :: j in Receivers(handlers[..n], name) ==> j < n;
    }
  }
}
