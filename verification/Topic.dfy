/** Topic patterns: levels separated by '.' or '/', with '*' for one level and '#' for the rest. */
module Topic {
  predicate IsSep(c: char) {
    c == '.' || c == '/'
  }

  predicate IsWildcard(c: char) {
    c == '*' || c == '#'
  }

  /** A wildcard is a whole level, and '#' is the last one. */
  predicate WellFormed(pattern: string) {
    forall i :: 0 <= i < |pattern| && IsWildcard(pattern[i]) ==> WholeLevel(pattern, i)
  }

  predicate WholeLevel(pattern: string, i: nat)
    requires i < |pattern|
  {
    (i == 0 || IsSep(pattern[i - 1])) && (i + 1 == |pattern| || (pattern[i] == '*' && IsSep(pattern[i + 1])))
  }

  // ---- the matcher ----

  /** Walks along pattern and topic at the same time; any pattern is accepted, also one that is not well formed. */
  method Match(pattern: string, topic: string) returns (r: bool)
    ensures r == Accepts(pattern, topic)
  {
    var p, t := 0, 0;
    assert pattern[0..] == pattern && topic[0..] == topic;
    while p < |pattern| && t < |topic|
      invariant p <= |pattern| && t <= |topic|
      invariant Accepts(pattern, topic) == Accepts(pattern[p..], topic[t..])
      decreases |pattern| - p
    {
      assert pattern[p..][1..] == pattern[p + 1..] && topic[t..][1..] == topic[t + 1..];
      if pattern[p] == '#' {
        return p + 1 == |pattern|;
      }
      if pattern[p] == '*' {
        while t < |topic| && !IsSep(topic[t])
          invariant t <= |topic| && Accepts(pattern, topic) == Accepts(pattern[p..], topic[t..])
        {
          assert topic[t..][1..] == topic[t + 1..];
          t := t + 1;
        }
        p := p + 1;
        if p < |pattern| && t < |topic| && IsSep(pattern[p]) && IsSep(topic[t]) {
          assert topic[t..][1..] == topic[t + 1..] && pattern[p..][1..] == pattern[p + 1..];
          p, t := p + 1, t + 1;
          continue;
        }
        return p == |pattern| && t == |topic|;
      }
      if IsSep(pattern[p]) && IsSep(topic[t]) {
        p, t := p + 1, t + 1;
        continue;
      }
      if pattern[p] == topic[t] {
        p, t := p + 1, t + 1;
        continue;
      }
      return false;
    }
    if p < |pattern| && pattern[p] == '#' {
      return p + 1 == |pattern|;
    }
    if p < |pattern| && pattern[p] == '*' && p + 1 == |pattern| && t == |topic| {
      return true;
    }
    if p < |pattern| && IsSep(pattern[p]) {
      if p + 1 < |pattern| && pattern[p + 1] == '#' && p + 2 == |pattern| {
        return true;
      }
    }
    r := p == |pattern| && t == |topic|;
  }

  /** Accepting, one character of the pattern at a time. */
  predicate Accepts(pattern: string, topic: string) {
    if pattern == "" then topic == ""
    else if pattern[0] == '#' then |pattern| == 1
    else if pattern[0] == '*' then
      if topic != "" && !IsSep(topic[0]) then Accepts(pattern, topic[1..])
      else if |pattern| > 1 && IsSep(pattern[1]) && topic != "" then Accepts(pattern[2..], topic[1..])
      else |pattern| == 1 && topic == ""
    else if topic == "" then IsSep(pattern[0]) && pattern[1..] == "#"
    else (pattern[0] == topic[0] || (IsSep(pattern[0]) && IsSep(topic[0]))) && Accepts(pattern[1..], topic[1..])
  }

  // ---- what it computes, level by level ----

  /** The levels of a pattern or topic; the separators do not matter. */
  function Levels(s: string): (levels: seq<string>)
    ensures levels != []
  {
    if s == "" then [""]
    else
      var rest := Levels(s[1..]);
      if IsSep(s[0]) then [""] + rest else [[s[0]] + rest[0]] + rest[1..]
  }

  /** '*' takes one level.  '#' takes whatever follows; after a literal level that may be nothing, but not after '*'. */
  predicate Matches(pattern: seq<string>, topic: seq<string>)
    requires pattern != [] && topic != []
  {
    if pattern[0] == "#" then |pattern| == 1
    else if pattern[0] == "*" then
      if |pattern| == 1 then |topic| == 1 else |topic| > 1 && Matches(pattern[1..], topic[1..])
    else
      pattern[0] == topic[0] &&
      if |pattern| == 1 then |topic| == 1
      else if |topic| == 1 then pattern[1..] == ["#"]
      else Matches(pattern[1..], topic[1..])
  }

  /** On a well-formed pattern, the walk over characters is the match of levels. */
  lemma {:induction false} AcceptsIsMatches(pattern: string, topic: string)
    requires WellFormed(pattern)
    ensures Accepts(pattern, topic) == Matches(Levels(pattern), Levels(topic))
    decreases |pattern|, |topic|
  {
    hide Matches;
    if pattern == "" {
      OnlyEmpty(topic);
    } else if pattern[0] == '#' {
      assert WholeLevel(pattern, 0);
      assert pattern == "#";
      HashMatches(Levels(topic));
    } else if pattern[0] == '*' {
      Star(pattern, topic);
    } else {
      TailWellFormed(pattern);
      if topic == "" {
        OnlyHash(pattern[1..]);
        NothingLeft(Levels(pattern), pattern);
      } else if IsSep(pattern[0]) && IsSep(topic[0]) {
        AcceptsIsMatches(pattern[1..], topic[1..]);
        SepMatches(Levels(pattern[1..]), Levels(topic[1..]));
      } else if pattern[0] == topic[0] {
        AcceptsIsMatches(pattern[1..], topic[1..]);
        NotWildcardNext(pattern);
        CharMatches(pattern[0], Levels(pattern[1..]), Levels(topic[1..]));
      } else {
        CharDiffers(pattern, topic);
      }
    }
  }

  lemma TailWellFormed(pattern: string)
    requires pattern != "" && WellFormed(pattern)
    ensures WellFormed(pattern[1..])
  {
    forall i | 0 <= i < |pattern[1..]| && IsWildcard(pattern[1..][i])
      ensures WholeLevel(pattern[1..], i)
    {
      assert WholeLevel(pattern, i + 1);
    }
  }

  /** A '*' in front. */
  lemma {:induction false} Star(pattern: string, topic: string)
    requires pattern != "" && pattern[0] == '*' && WellFormed(pattern)
    ensures Accepts(pattern, topic) == Matches(Levels(pattern), Levels(topic))
    decreases |pattern|, |topic|, 0
  {
    assert WholeLevel(pattern, 0);
    StarLevel(pattern);
    if topic != "" && !IsSep(topic[0]) {
      AcceptsIsMatches(pattern, topic[1..]);
      assert Matches(Levels(pattern), Levels(topic)) == Matches(Levels(pattern), Levels(topic[1..])) by {
        assert Levels(topic)[1..] == Levels(topic[1..])[1..];
      }
    } else if |pattern| > 1 && topic != "" {
      TailWellFormed(pattern);
      TailWellFormed(pattern[1..]);
      assert pattern[1..][1..] == pattern[2..];
      AcceptsIsMatches(pattern[2..], topic[1..]);
      assert Levels(topic)[1..] == Levels(topic[1..]) && Levels(pattern)[1..] == Levels(pattern[2..]);
    }
  }

  lemma StarLevel(pattern: string)
    requires pattern != "" && pattern[0] == '*' && (|pattern| > 1 ==> IsSep(pattern[1]))
    ensures Levels(pattern) == if |pattern| == 1 then ["*"] else ["*"] + Levels(pattern[2..])
  {
    if |pattern| == 1 {
      assert pattern == "*" && Levels("") == [""];
    } else {
      assert pattern[1..][1..] == pattern[2..] && ['*'] + "" == "*";
    }
  }

  lemma OnlyEmpty(topic: string)
    ensures Matches(Levels(""), Levels(topic)) == (topic == "")
  {
  }

  lemma HashMatches(topic: seq<string>)
    requires topic != []
    ensures Levels("#") == ["#"] && Matches(["#"], topic)
  {
    assert "#"[1..] == "" && ['#'] + "" == "#";
  }

  lemma SepMatches(ps: seq<string>, ts: seq<string>)
    requires ps != [] && ts != []
    ensures Matches([""] + ps, [""] + ts) == Matches(ps, ts)
  {
    assert ([""] + ps)[1..] == ps && ([""] + ts)[1..] == ts;
  }

  /** Behind a literal character there is no wildcard in the same level. */
  lemma NotWildcardNext(pattern: string)
    requires pattern != "" && WellFormed(pattern) && !IsSep(pattern[0])
    ensures Levels(pattern[1..])[0] != "*" && Levels(pattern[1..])[0] != "#"
  {
    if |pattern| > 1 {
      assert !IsWildcard(pattern[1]);
      FirstChar(pattern[1..]);
    }
  }

  /** The first level starts with the first character, or is empty in front of a separator. */
  lemma FirstChar(s: string)
    requires s != ""
    ensures if IsSep(s[0]) then Levels(s)[0] == "" else Levels(s)[0] != "" && Levels(s)[0][0] == s[0]
  {
  }

  lemma CharMatches(c: char, ps: seq<string>, ts: seq<string>)
    requires ps != [] && ts != [] && !IsWildcard(c) && ps[0] != "*" && ps[0] != "#"
    ensures Matches([[c] + ps[0]] + ps[1..], [[c] + ts[0]] + ts[1..]) == Matches(ps, ts)
  {
    var ps', ts' := [[c] + ps[0]] + ps[1..], [[c] + ts[0]] + ts[1..];
    assert ps'[1..] == ps[1..] && ts'[1..] == ts[1..];
    assert ps'[0][0] == c;
    if ps'[0] == ts'[0] {
      assert ps'[0][1..] == ps[0] && ts'[0][1..] == ts[0];
    }
  }

  lemma CharDiffers(pattern: string, topic: string)
    requires pattern != "" && topic != "" && !IsWildcard(pattern[0]) && pattern[0] != topic[0]
    requires !(IsSep(pattern[0]) && IsSep(topic[0]))
    ensures !Matches(Levels(pattern), Levels(topic))
  {
    hide Levels;
    FirstChar(pattern);
    FirstChar(topic);
    var ps, ts := Levels(pattern)[0], Levels(topic)[0];
    assert ps != "*" && ps != "#" && ps != ts;
  }

  lemma OnlyHash(s: string)
    ensures Levels(s) == ["#"] <==> s == "#"
  {
    HashMatches([""]);
    if Levels(s) == ["#"] && |s| > 1 {
      FirstChar(s[1..]);
    }
  }

  /** A pattern that does not start with a wildcard, against the empty topic. */
  lemma NothingLeft(levels: seq<string>, pattern: string)
    requires pattern != "" && !IsWildcard(pattern[0]) && levels == Levels(pattern)
    requires Levels(pattern[1..]) == ["#"] <==> pattern[1..] == "#"
    ensures Matches(levels, Levels("")) == (IsSep(pattern[0]) && pattern[1..] == "#")
  {
    FirstChar(pattern);
  }

  // ---- what the documentation says ----

  /** '*' is one level, '#' is zero or more, and otherwise levels are equal. */
  predicate Documented(pattern: seq<string>, topic: seq<string>) {
    if pattern == [] then topic == []
    else if pattern[0] == "#" then true
    else topic != [] && (pattern[0] == "*" || pattern[0] == topic[0]) && Documented(pattern[1..], topic[1..])
  }

  /** A '#' that follows a '*' is not allowed to match nothing. */
  predicate HashNeedsLevel(pattern: seq<string>, topic: seq<string>) {
    |pattern| >= 2 && pattern[|pattern| - 1] == "#" && pattern[|pattern| - 2] == "*" && |topic| == |pattern| - 1
  }

  /** '#' is the last level. */
  predicate HashLast(pattern: seq<string>) {
    forall i :: 0 <= i < |pattern| && pattern[i] == "#" ==> i + 1 == |pattern|
  }

  /** The matcher does what its documentation says, except that "*.#" needs one level more than it says. */
  lemma {:induction false} MatchesAsDocumented(pattern: seq<string>, topic: seq<string>)
    requires pattern != [] && topic != [] && HashLast(pattern)
    ensures Matches(pattern, topic) <==> Documented(pattern, topic) && !HashNeedsLevel(pattern, topic)
  {
    if pattern[0] != "#" && |pattern| > 1 {
      if |topic| > 1 {
        assert HashLast(pattern[1..]) by { assert forall i :: 0 <= i < |pattern| - 1 ==> pattern[1..][i] == pattern[i + 1]; }
        MatchesAsDocumented(pattern[1..], topic[1..]);
        assert HashNeedsLevel(pattern, topic) == HashNeedsLevel(pattern[1..], topic[1..]);
      } else {
        assert topic[1..] == [];
        assert Documented(pattern[1..], []) == (pattern[1] == "#");
        if pattern[1] == "#" { assert pattern[1..] == ["#"]; }
      }
    }
  }

  /** The exception is real. */
  lemma StarHashException()
    ensures !Matches(["*", "#"], ["a"]) && Documented(["*", "#"], ["a"])
    ensures Matches(["a", "#"], ["a"])
  {
    assert Documented(["*", "#"][1..], ["a"][1..]);
    assert ["a", "#"][1..] == ["#"];
  }

  /** The two separators are interchangeable. */
  lemma {:induction false} SeparatorsAlike(a: string, b: string)
    requires |a| == |b|
    requires forall i :: 0 <= i < |a| ==> a[i] == b[i] || ((a[i] == '.' || a[i] == '/') && (b[i] == '.' || b[i] == '/'))
    ensures Levels(a) == Levels(b)
  {
    if a != "" { SeparatorsAlike(a[1..], b[1..]); }
  }

  /** What stands before the first separator is the first level, and what stands behind it has the others; without a
      separator there is only one level. */
  lemma {:induction false} LevelsSplit(a: string, c: char, b: string)
    requires (forall i :: 0 <= i < |a| ==> a[i] != '.' && a[i] != '/') && (c == '.' || c == '/')
    ensures Levels(a) == [a] && Levels(a + [c] + b) == [a] + Levels(b)
  {
    var s := a + [c] + b;
    if a == "" {
      assert s == [c] + b && s[1..] == b;
    } else {
      LevelsSplit(a[1..], c, b);
      assert s[1..] == a[1..] + [c] + b && s[0] == a[0];
      assert [a[0]] + a[1..] == a;
    }
  }

  /** A well-formed pattern has '#' only as its last level. */
  lemma {:induction false} WellFormedLevels(pattern: string)
    requires WellFormed(pattern)
    ensures HashLast(Levels(pattern))
    ensures pattern != "" && Levels(pattern)[0] == "#" ==> pattern[0] == '#'
  {
    if pattern != "" {
      TailWellFormed(pattern);
      WellFormedLevels(pattern[1..]);
      FirstChar(pattern);
      if pattern[0] == '#' {
        assert WholeLevel(pattern, 0);
        assert pattern == "#";
        HashMatches([""]);
      } else {
        var rest, levels := Levels(pattern[1..]), Levels(pattern);
        assert levels[0] != "#";
        forall i | 0 <= i < |levels| && levels[i] == "#"
          ensures i + 1 == |levels|
        {
          if IsSep(pattern[0]) { assert rest[i - 1] == "#"; } else { assert rest[i] == "#"; }
        }
      }
    }
  }

  /** What a subscriber with a well-formed pattern may rely on. */
  lemma AcceptsAsDocumented(pattern: string, topic: string)
    requires WellFormed(pattern)
    ensures Accepts(pattern, topic) <==>
      Documented(Levels(pattern), Levels(topic)) && !HashNeedsLevel(Levels(pattern), Levels(topic))
  {
    AcceptsIsMatches(pattern, topic);
    WellFormedLevels(pattern);
    MatchesAsDocumented(Levels(pattern), Levels(topic));
  }
}
