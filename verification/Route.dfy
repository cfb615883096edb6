/** ducq_route_cmp: a wildcard matcher without backtracking, and what it matches. */
module Route {
  import opened Basics

  /** A C string's contents. */
  predicate IsText(s: string) {
    NUL !in s
  }

  type CString = s: string | IsText(s)

  /** The character a pointer to the start of s reads. */
  function Peek(s: string): char {
    if s == "" then NUL else s[0]
  }

  /** How far strchrnull advances. */
  function Skip(s: string, c: char): (k: nat)
    ensures k <= |s| && c !in s[..k] && (k < |s| ==> s[k] == c)
  {
    if s == "" || s[0] == c then 0 else
    assert forall k: nat :: 0 < k <= |s| ==> s[..k] == [s[0]] + s[1..][..k - 1];
    1 + Skip(s[1..], c)
  }

  /** The comparison as a recursion on what is left of both routes. */
  function RouteCmp(sub: string, pub: string): bool {
    if sub == "" || pub == "" then (sub == "" || sub == "*") && pub == ""
    else if sub[0] == '*' then RouteCmp(sub[1..], pub[Skip(pub, Peek(sub[1..]))..])
    else sub[0] == pub[0] && RouteCmp(sub[1..], pub[1..])
  }

  method Strchrnull(str: string, start: nat, c: char) returns (at: nat)
    requires start <= |str|
    ensures at == start + Skip(str[start..], c)
  {
    at := start;
    while at < |str| && str[at] != c
      invariant start <= at <= |str|
      invariant at + Skip(str[at..], c) == start + Skip(str[start..], c)
    {
      assert str[at..][1..] == str[at + 1..];
      at := at + 1;
    }
  }

  /** The comparison of what is left of both routes. */
  function CmpFrom(s: string, sub: nat, p: string, pub: nat): bool
    requires sub <= |s| && pub <= |p|
  {
    RouteCmp(s[sub..], p[pub..])
  }

  /** One step of the comparison, on indices. */
  lemma Unfold(s: string, sub: nat, p: string, pub: nat)
    requires sub < |s| && pub < |p|
    ensures s[sub] == '*' ==>
              var at := pub + Skip(p[pub..], if sub + 1 < |s| then s[sub + 1] else NUL);
              at <= |p| && CmpFrom(s, sub, p, pub) == CmpFrom(s, sub + 1, p, at)
    ensures s[sub] != '*' ==>
              CmpFrom(s, sub, p, pub) == (s[sub] == p[pub] && CmpFrom(s, sub + 1, p, pub + 1))
  {
    assert s[sub..][1..] == s[sub + 1..] && p[pub..][1..] == p[pub + 1..];
    var k := Skip(p[pub..], Peek(s[sub + 1..]));
    assert p[pub..][k..] == p[pub + k..];
  }

  /** What is left when the loop ends. */
  lemma Decided(s: string, sub: nat, p: string, pub: nat)
    requires sub <= |s| && pub <= |p|
    requires sub == |s| || pub == |p| || (s[sub] != '*' && s[sub] != p[pub])
    ensures CmpFrom(s, sub, p, pub)
       <==> pub == |p| && (sub == |s| || (s[sub] == '*' && sub + 1 == |s|))
  {
  }

  lemma FromStart(s: string, p: string)
    ensures CmpFrom(s, 0, p, 0) == RouteCmp(s, p)
  {
    assert s[0..] == s && p[0..] == p;
  }

  method DucqRouteCmp(subRoute: Option<string>, pubRoute: Option<string>) returns (matches: bool)
    requires subRoute.Some? ==> IsText(subRoute.value)
    requires pubRoute.Some? ==> IsText(pubRoute.value)
    ensures matches <==> subRoute.Some? && pubRoute.Some? && RouteCmp(subRoute.value, pubRoute.value)
  {
    if subRoute.None? || pubRoute.None? {
      return false;
    }
    hide Skip, CmpFrom;
    var s, p := subRoute.value, pubRoute.value;
    FromStart(s, p);
    var sub, pub := 0, 0;
    while sub < |s| && pub < |p|
      invariant 0 <= sub <= |s| && 0 <= pub <= |p|
      invariant CmpFrom(s, sub, p, pub) == RouteCmp(s, p)
    {
      Unfold(s, sub, p, pub);
      if s[sub] == '*' {
        sub := sub + 1;
        pub := Strchrnull(p, pub, if sub < |s| then s[sub] else NUL);
      } else if s[sub] == p[pub] {
        sub, pub := sub + 1, pub + 1;
      } else {
        break;
      }
    }
    Decided(s, sub, p, pub);
    if sub < |s| && s[sub] == '*' {
      sub := sub + 1;
    }
    return sub == |s| && pub == |p|;
  }

  // ------------------------------------------------------- what is matched

  /** One piece of the published route for every character of the pattern; a plain character stands for itself. */
  ghost predicate Glob(sub: string, pub: string, parts: seq<string>) {
    |parts| == |sub| && Concat(parts) == pub
    && forall i :: 0 <= i < |sub| && sub[i] != '*' ==> parts[i] == [sub[i]]
  }

  /** A star before another character covers a run without that character. */
  ghost predicate Shortest(sub: string, parts: seq<string>)
    requires |parts| == |sub|
  {
    forall i :: 0 <= i < |sub| - 1 && sub[i] == '*' ==> sub[i + 1] !in parts[i]
  }

  /** A star before a star runs up to a star in the published route, or is the last but one and runs to its end. */
  ghost predicate StarRule(sub: string, parts: seq<string>)
    requires |parts| == |sub|
  {
    forall i :: 0 <= i < |sub| - 1 && sub[i] == '*' && sub[i + 1] == '*' ==>
      var rest := Concat(parts[i + 1..]);
      if rest == "" then parts[i] != "" && i + 2 == |sub| else rest[0] == '*'
  }

  ghost predicate Covers(sub: string, pub: string, parts: seq<string>) {
    Glob(sub, pub, parts) && Shortest(sub, parts) && StarRule(sub, parts)
  }

  predicate NoAdjacentStars(sub: string) {
    forall i :: 0 <= i < |sub| - 1 && sub[i] == '*' ==> sub[i + 1] != '*'
  }

  /** The split a successful comparison makes. */
  function Parts(sub: string, pub: string): (parts: seq<string>)
    ensures |parts| == |sub|
  {
    if sub == "" || pub == "" then seq(|sub|, _ => "")
    else if sub[0] == '*' then
      var k := Skip(pub, Peek(sub[1..]));
      [pub[..k]] + Parts(sub[1..], pub[k..])
    else [[sub[0]]] + Parts(sub[1..], pub[1..])
  }

  /** What Covers asks of the first piece, when rest is what follows it. */
  predicate HeadOk(sub: string, piece: string, rest: string)
    requires sub != ""
  {
    if sub[0] != '*' then piece == [sub[0]]
    else if |sub| == 1 then true
    else sub[1] !in piece
         && (sub[1] == '*' ==> if rest == "" then piece != "" && |sub| == 2 else rest[0] == '*')
  }

  /** Covers, one pattern character at a time. */
  lemma CoversByHead(sub: string, pub: string, parts: seq<string>)
    requires sub != "" && |parts| == |sub|
    ensures var rest := Concat(parts[1..]);
            Covers(sub, pub, parts) <==>
            pub == parts[0] + rest && HeadOk(sub, parts[0], rest) && Covers(sub[1..], rest, parts[1..])
  {
    var rest := Concat(parts[1..]);
    if Covers(sub, pub, parts) {
      CoversTail(sub, pub, parts);
    }
    if pub == parts[0] + rest && HeadOk(sub, parts[0], rest) && Covers(sub[1..], rest, parts[1..]) {
      CoversCons(sub, pub, parts);
    }
  }

  lemma CoversTail(sub: string, pub: string, parts: seq<string>)
    requires sub != "" && |parts| == |sub| && Covers(sub, pub, parts)
    ensures Covers(sub[1..], Concat(parts[1..]), parts[1..]) && HeadOk(sub, parts[0], Concat(parts[1..]))
  {
    var s, q := sub[1..], parts[1..];
    forall i | 0 <= i < |s| - 1 && s[i] == '*'
      ensures s[i + 1] !in q[i]
    {
      assert sub[i + 1] == '*';
    }
    forall i | 0 <= i < |s| - 1 && s[i] == '*' && s[i + 1] == '*'
      ensures var tail := Concat(q[i + 1..]); if tail == "" then q[i] != "" && i + 2 == |s| else tail[0] == '*'
    {
      assert sub[i + 1] == '*' && sub[i + 2] == '*' && q[i + 1..] == parts[i + 2..];
    }
  }

  lemma CoversCons(sub: string, pub: string, parts: seq<string>)
    requires sub != "" && |parts| == |sub| && pub == parts[0] + Concat(parts[1..])
    requires HeadOk(sub, parts[0], Concat(parts[1..])) && Covers(sub[1..], Concat(parts[1..]), parts[1..])
    ensures Covers(sub, pub, parts)
  {
    var s, q := sub[1..], parts[1..];
    forall i | 0 <= i < |sub| - 1 && sub[i] == '*'
      ensures sub[i + 1] !in parts[i]
    {
      assert i > 0 ==> s[i - 1] == '*' && s[i] !in q[i - 1];
    }
    forall i | 0 <= i < |sub| - 1 && sub[i] == '*' && sub[i + 1] == '*'
      ensures var tail := Concat(parts[i + 1..]); if tail == "" then parts[i] != "" && i + 2 == |sub| else tail[0] == '*'
    {
      assert i > 0 ==> s[i - 1] == '*' && s[i] == '*' && q[i..] == parts[i + 1..];
    }
  }

  lemma {:induction false} PartsCover(sub: string, pub: string)
    requires RouteCmp(sub, pub) && IsText(sub)
    ensures Covers(sub, pub, Parts(sub, pub))
  {
    hide Covers;
    if sub == "" || pub == "" {
      EndCovers(sub);
    } else {
      hide RouteCmp, Parts, HeadOk, Concat;
      var piece, rest := PartsStep(sub, pub);
      PartsCover(sub[1..], rest);
      CoversConcat(sub[1..], rest, Parts(sub[1..], rest));
      assert Parts(sub, pub)[1..] == Parts(sub[1..], rest);
      CoversByHead(sub, pub, Parts(sub, pub));
    }
  }

  /** The first piece of the split, and what it leaves. */
  lemma PartsStep(sub: string, pub: string) returns (piece: string, rest: string)
    requires sub != "" && pub != "" && RouteCmp(sub, pub) && IsText(sub)
    ensures RouteCmp(sub[1..], rest) && pub == piece + rest && HeadOk(sub, piece, rest)
    ensures Parts(sub, pub) == [piece] + Parts(sub[1..], rest)
  {
    if sub[0] == '*' {
      var k := Skip(pub, Peek(sub[1..]));
      piece, rest := pub[..k], pub[k..];
      assert rest == "" ==> sub[1..] == "" || sub[1..] == "*";
    } else {
      piece, rest := [sub[0]], pub[1..];
    }
  }

  lemma EndCovers(sub: string)
    requires sub == "" || sub == "*"
    ensures Covers(sub, "", Parts(sub, ""))
  {
  }

  lemma CoversConcat(sub: string, pub: string, parts: seq<string>)
    requires Covers(sub, pub, parts)
    ensures Concat(parts) == pub && |parts| == |sub|
  {
  }

  lemma {:induction false} CoverMatches(sub: string, pub: string, parts: seq<string>)
    requires Covers(sub, pub, parts) && IsText(sub) && IsText(pub)
    ensures RouteCmp(sub, pub)
  {
    if sub != "" {
      CoversByHead(sub, pub, parts);
      var rest := Concat(parts[1..]);
      assert pub[|parts[0]|..] == rest;
      CoverMatches(sub[1..], rest, parts[1..]);
    }
  }

  /** Exactly what is matched, adjacent stars included. */
  lemma MatchesExactly(sub: string, pub: string)
    requires IsText(sub) && IsText(pub)
    ensures RouteCmp(sub, pub) <==> exists parts :: Covers(sub, pub, parts)
  {
    if RouteCmp(sub, pub) {
      PartsCover(sub, pub);
    }
    if exists parts :: Covers(sub, pub, parts) {
      var parts :| Covers(sub, pub, parts);
      CoverMatches(sub, pub, parts);
    }
  }

  /** Without adjacent stars: each star but a last one covers a run without the character after it. */
  lemma MatchesShortestRuns(sub: string, pub: string)
    requires IsText(sub) && IsText(pub) && NoAdjacentStars(sub)
    ensures RouteCmp(sub, pub) <==> exists parts :: Glob(sub, pub, parts) && Shortest(sub, parts)
  {
    MatchesExactly(sub, pub);
    if exists parts :: Glob(sub, pub, parts) && Shortest(sub, parts) {
      var parts :| Glob(sub, pub, parts) && Shortest(sub, parts);
      assert Covers(sub, pub, parts);
    }
  }

  /** A match is always an ordinary wildcard match. */
  lemma MatchIsGlob(sub: string, pub: string)
    requires IsText(sub) && IsText(pub) && RouteCmp(sub, pub)
    ensures exists parts :: Glob(sub, pub, parts)
  {
    MatchesExactly(sub, pub);
  }

  /** No character that follows a star occurs twice in the published route. */
  ghost predicate StopsAreUnique(sub: string, pub: string) {
    forall i :: 0 <= i < |sub| - 1 && sub[i] == '*' ==> multiset(pub)[sub[i + 1]] <= 1
  }

  /** Then ordinary wildcard matching and the comparison agree. */
  lemma GlobIsMatch(sub: string, pub: string)
    requires IsText(sub) && IsText(pub) && NoAdjacentStars(sub) && StopsAreUnique(sub, pub)
    ensures RouteCmp(sub, pub) <==> exists parts :: Glob(sub, pub, parts)
  {
    MatchesShortestRuns(sub, pub);
    if exists parts :: Glob(sub, pub, parts) {
      var parts :| Glob(sub, pub, parts);
      forall i | 0 <= i < |sub| - 1 && sub[i] == '*'
        ensures sub[i + 1] !in parts[i]
      {
        TwoPieces(parts, i, sub[i + 1]);
        assert multiset(pub)[sub[i + 1]] <= 1 && parts[i + 1] == [sub[i + 1]];
      }
      assert Shortest(sub, parts);
    }
  }

  lemma {:induction false} TwoPieces(parts: seq<string>, i: nat, c: char)
    requires i + 1 < |parts|
    ensures multiset(Concat(parts))[c] >= multiset(parts[i])[c] + multiset(parts[i + 1])[c]
  {
    if i == 0 {
      assert parts[1..][0] == parts[1] && Concat(parts) == parts[0] + (parts[1] + Concat(parts[1..][1..]));
    } else {
      TwoPieces(parts[1..], i - 1, c);
      assert parts[1..][i - 1] == parts[i] && parts[1..][i] == parts[i + 1];
    }
  }

  /** Otherwise they can differ: the first 'a' is taken, and the comparison never goes back. */
  lemma GlobWithoutMatch()
    ensures !RouteCmp("*ab", "aab") && Glob("*ab", "aab", ["a", "a", "b"])
  {
    assert "*ab"[1..] == "ab" && "ab"[1..] == "b" && "aab"[1..] == "ab";
    assert ["a", "a", "b"][1..] == ["a", "b"] && ["a", "b"][1..] == ["b"] && ["b"][1..] == [];
    assert Concat(["b"]) == "b" && Concat(["a", "b"]) == "ab";
    assert Skip("aab", 'a') == 0 && "aab"[0..] == "aab";
    assert RouteCmp("*ab", "aab") == RouteCmp("ab", "aab") == RouteCmp("b", "ab");
  }

  // ------------------------------------ when it is ordinary wildcard matching

  /** Every star but a last one is followed by one character and another star. */
  predicate StarsAlternate(sub: string) {
    NoAdjacentStars(sub)
    && forall i :: 0 <= i < |sub| - 1 && sub[i] == '*' ==> i + 2 < |sub| && sub[i + 2] == '*'
  }

  /** The pattern matches every route as an ordinary wildcard pattern would. */
  ghost predicate IsGlobEverywhere(sub: string) {
    forall pub: string | IsText(pub) :: RouteCmp(sub, pub) <==> exists parts :: Glob(sub, pub, parts)
  }

  /** The patterns for which never going back does no harm are exactly those where a later star makes up for it. */
  lemma GlobEverywhere(sub: string)
    requires IsText(sub)
    ensures IsGlobEverywhere(sub) <==> StarsAlternate(sub)
  {
    if StarsAlternate(sub) {
      forall pub: string | IsText(pub)
        ensures RouteCmp(sub, pub) <==> exists parts :: Glob(sub, pub, parts)
      {
        if RouteCmp(sub, pub) {
          MatchIsGlob(sub, pub);
        }
        if exists parts :: Glob(sub, pub, parts) {
          var parts :| Glob(sub, pub, parts);
          AlternatingMatches(sub, pub, parts);
        }
      }
    } else {
      var parts := MissedIsGlob(sub);
      MissedIsMissed(sub);
      assert IsText(Missed(sub)) && Glob(sub, Missed(sub), parts);
    }
  }

  lemma GlobHead(sub: string, pub: string, parts: seq<string>)
    requires sub != "" && Glob(sub, pub, parts)
    ensures pub == parts[0] + Concat(parts[1..]) && Glob(sub[1..], Concat(parts[1..]), parts[1..])
    ensures sub[0] != '*' ==> parts[0] == [sub[0]]
  {
  }

  /** A star takes the first character that follows it; the next star absorbs the difference. */
  lemma {:induction false} AlternatingMatches(sub: string, pub: string, parts: seq<string>)
    requires StarsAlternate(sub) && Glob(sub, pub, parts) && IsText(sub) && IsText(pub)
    ensures RouteCmp(sub, pub)
    decreases |sub|
  {
    if sub != "" {
      GlobHead(sub, pub, parts);
      var rest := Concat(parts[1..]);
      if sub[0] != '*' {
        assert StarsAlternate(sub[1..]) by { TailAlternates(sub, 1); }
        assert pub[1..] == rest;
        AlternatingMatches(sub[1..], rest, parts[1..]);
      } else if |sub| == 1 {
        StarTakesAll(pub);
        assert sub == "*";
      } else {
        var shorter, longer := StarStops(sub, pub, parts);
        TailAlternates(sub, 2);
        AlternatingMatches(sub[2..], shorter, longer);
      }
    }
  }

  /** The route left behind the first stop is still covered by what is left of the pattern. */
  lemma StarStops(sub: string, pub: string, parts: seq<string>) returns (shorter: string, longer: seq<string>)
    requires |sub| > 2 && sub[0] == '*' && sub[1] != '*' && sub[2] == '*' && Glob(sub, pub, parts)
    ensures Glob(sub[2..], shorter, longer) && RouteCmp(sub, pub) == RouteCmp(sub[2..], shorter)
    ensures forall c :: c in shorter ==> c in pub
  {
    hide Concat, Skip, RouteCmp;
    GlobHead(sub, pub, parts);
    var rest := Concat(parts[1..]);
    GlobHead(sub[1..], rest, parts[1..]);
    assert parts[1..][1..] == parts[2..] && sub[1..][1..] == sub[2..];
    var c, n, last := sub[1], |parts[0]|, Concat(parts[2..]);
    assert pub == parts[0] + [c] + last && pub[n] == c;
    FirstIsFirst(pub, c, n);
    var k := Skip(pub, c);
    TakesStop(sub, pub);
    shorter := pub[k + 1..];
    assert shorter == pub[k + 1..n + 1] + last;
    StarAbsorbs(sub[2..], last, parts[2..], pub[k + 1..n + 1]);
    longer := parts[2..][0 := pub[k + 1..n + 1] + parts[2]];
  }

  lemma TakesStop(sub: string, pub: string)
    requires |sub| > 2 && sub[0] == '*' && sub[1] != '*' && Skip(pub, sub[1]) < |pub|
    ensures RouteCmp(sub, pub) == RouteCmp(sub[2..], pub[Skip(pub, sub[1]) + 1..])
  {
    hide RouteCmp, Skip;
    Unfold(sub, 0, pub, 0);
    Unfold(sub, 1, pub, Skip(pub, sub[1]));
    assert sub[0..] == sub && pub[0..] == pub;
  }

  lemma TailAlternates(sub: string, k: nat)
    requires StarsAlternate(sub) && k <= |sub|
    ensures StarsAlternate(sub[k..])
  {
    var t := sub[k..];
    forall i | 0 <= i < |t| - 1 && t[i] == '*'
      ensures t[i + 1] != '*' && i + 2 < |t| && t[i + 2] == '*'
    {
      assert sub[k + i] == '*' && sub[k + i + 1] == t[i + 1];
    }
  }

  lemma StarTakesAll(pub: string)
    requires IsText(pub)
    ensures RouteCmp("*", pub)
  {
    assert "*"[1..] == "";
    SkipTo(pub, NUL, |pub|);
    assert pub[|pub|..] == "";
  }

  lemma FirstIsFirst(s: string, c: char, k: nat)
    requires k < |s| && s[k] == c
    ensures Skip(s, c) <= k
  {
    var before := s[..Skip(s, c)];
    assert forall i :: 0 <= i < |before| ==> before[i] in before && before[i] == s[i];
  }

  /** What comes before the text a star covers can be covered by the star as well. */
  lemma StarAbsorbs(sub: string, pub: string, parts: seq<string>, before: string)
    requires sub != "" && sub[0] == '*' && Glob(sub, pub, parts)
    ensures Glob(sub, before + pub, parts[0 := before + parts[0]])
  {
    var longer := parts[0 := before + parts[0]];
    assert longer[1..] == parts[1..];
    assert before + parts[0] + Concat(parts[1..]) == before + (parts[0] + Concat(parts[1..]));
  }

  /** The pattern without its stars. */
  function Literals(sub: string): (t: string)
    ensures '*' !in t && forall c :: c in t ==> c in sub
  {
    if sub == "" then "" else (if sub[0] == '*' then "" else [sub[0]]) + Literals(sub[1..])
  }

  /** A character other than the one the pattern has two places on. */
  function Unlike(sub: string): (e: char)
    ensures e != NUL && (|sub| > 2 ==> e != sub[2])
  {
    if |sub| > 2 && sub[2] == 'a' then 'b' else 'a'
  }

  /** A route that the pattern covers, but the comparison misses: the first lone star is led to stop too early. */
  function Missed(sub: string): string {
    if sub == "" then ""
    else if sub[0] != '*' then [sub[0]] + Missed(sub[1..])
    else if |sub| == 1 || sub[1] == '*' then Literals(sub)
    else if |sub| == 2 || sub[2] != '*' then [sub[1], Unlike(sub)] + Literals(sub[1..])
    else Missed(sub[1..])
  }

  lemma GlobCons(sub: string, pub: string, parts: seq<string>, piece: string)
    requires sub != "" && Glob(sub[1..], pub, parts) && (sub[0] != '*' ==> piece == [sub[0]])
    ensures Glob(sub, piece + pub, [piece] + parts)
  {
    assert ([piece] + parts)[1..] == parts;
    forall i | 0 <= i < |sub| && sub[i] != '*'
      ensures ([piece] + parts)[i] == [sub[i]]
    {
      assert i > 0 ==> sub[1..][i - 1] != '*';
    }
  }

  lemma {:induction false} LiteralsAreGlob(sub: string) returns (parts: seq<string>)
    ensures Glob(sub, Literals(sub), parts)
  {
    if sub == "" {
      parts := [];
    } else {
      var rest := LiteralsAreGlob(sub[1..]);
      var piece := if sub[0] == '*' then "" else [sub[0]];
      GlobCons(sub, Literals(sub[1..]), rest, piece);
      parts := [piece] + rest;
    }
  }

  lemma {:induction false} MissedIsGlob(sub: string) returns (parts: seq<string>)
    requires IsText(sub)
    ensures IsText(Missed(sub)) && Glob(sub, Missed(sub), parts)
  {
    if sub == "" || (sub[0] == '*' && (|sub| == 1 || sub[1] == '*')) {
      parts := LiteralsAreGlob(sub);
    } else if sub[0] != '*' {
      var rest := MissedIsGlob(sub[1..]);
      GlobCons(sub, Missed(sub[1..]), rest, [sub[0]]);
      parts := [[sub[0]]] + rest;
    } else if |sub| == 2 || sub[2] != '*' {
      var rest := LiteralsAreGlob(sub[1..]);
      var piece := [sub[1], Unlike(sub)];
      GlobCons(sub, Literals(sub[1..]), rest, piece);
      parts := [piece] + rest;
    } else {
      var rest := MissedIsGlob(sub[1..]);
      GlobCons(sub, Missed(sub[1..]), rest, "");
      assert "" + Missed(sub[1..]) == Missed(sub[1..]);
      parts := [""] + rest;
    }
  }

  lemma {:induction false} MissedIsMissed(sub: string)
    requires IsText(sub) && !StarsAlternate(sub)
    ensures !RouteCmp(sub, Missed(sub))
  {
    var pub := Missed(sub);
    if sub[0] != '*' {
      StillNotAlternating(sub);
      assert pub[1..] == Missed(sub[1..]);
      MissedIsMissed(sub[1..]);
    } else if sub[1] == '*' {
      SkipTo(pub, '*', |pub|);
      assert pub[|pub|..] == "";
      assert sub[1..] == "*" ==> sub == "**" && Literals("**") == "";
    } else {
      if |sub| > 2 && sub[2] == '*' {
        assert sub[1..][0] == sub[1] && pub == Missed(sub[1..]);
        assert pub == [sub[1]] + Missed(sub[1..][1..]);
      }
      assert pub != "" && pub[0] == sub[1];
      assert Skip(pub, sub[1]) == 0 && pub[0..] == pub;
      assert RouteCmp(sub, pub) == RouteCmp(sub[1..], pub);
      if |sub| == 2 || sub[2] != '*' {
        assert pub[1..][0] == Unlike(sub) && sub[1..][1..] == sub[2..];
        assert RouteCmp(sub[1..], pub) == RouteCmp(sub[2..], pub[1..]);
      } else {
        StillNotAlternating(sub);
        MissedIsMissed(sub[1..]);
      }
    }
  }

  lemma StillNotAlternating(sub: string)
    requires sub != "" && !StarsAlternate(sub)
    requires sub[0] == '*' ==> |sub| > 2 && sub[1] != '*' && sub[2] == '*'
    ensures |sub| > 1 && !StarsAlternate(sub[1..])
  {
    var t := sub[1..];
    assert forall i :: 1 <= i < |sub| ==> sub[i] == t[i - 1];
  }

  // ------------------------------------------------------------ own route

  /** From a run of stars at j up to k, the comparison of r with itself catches up. */
  lemma {:induction false} CatchesUp(r: string, j: nat, k: nat)
    requires j <= k <= |r| && IsText(r) && forall i :: j <= i < k ==> r[i] == '*'
    requires j < k ==> k < |r| && r[k] == '*'
    ensures RouteCmp(r[k..], r[j..])
    decreases |r| - k
  {
    hide Skip, RouteCmp;
    if k == |r| {
      assert r[k..] == r[j..] == "";
      NothingMatchesNothing();
    } else {
      Unfold(r, k, r, j);
      if r[k] == '*' {
        var c := if k + 1 < |r| then r[k + 1] else NUL;
        var next := if c == '*' then j else k + 1;
        assert r[j..][..next - j] == r[j..next];
        SkipTo(r[j..], c, next - j);
        CatchesUp(r, next, k + 1);
      } else {
        CatchesUp(r, j + 1, k + 1);
      }
    }
  }

  lemma NothingMatchesNothing()
    ensures RouteCmp("", "")
  {
  }

  lemma {:induction false} SkipTo(s: string, c: char, k: nat)
    requires k <= |s| && c !in s[..k] && (k < |s| ==> s[k] == c)
    ensures Skip(s, c) == k
  {
    if k > 0 {
      assert s[0] in s[..k] && s[1..][..k - 1] == s[..k][1..];
      SkipTo(s[1..], c, k - 1);
    }
  }

  /** Every route matches itself, stars and runs of stars included. */
  lemma MatchesItself(r: string)
    requires IsText(r)
    ensures RouteCmp(r, r)
  {
    CatchesUp(r, 0, 0);
    assert r[0..] == r;
  }
}
