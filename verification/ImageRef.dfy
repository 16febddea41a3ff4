/** Image references: the parser `normalize_ref`, the printer `marshal`, and their laws. */
module ImageRef {
  import opened SplitJoin

  const DEFAULT_DOMAIN := "docker.io"
  const DEFAULT_INDEX_DOMAIN := "index.docker.io"
  const OFFICIAL_REPO := "library"
  const DEFAULT_TAG := "latest"

  /** The components of a reference; `sign` is "@" for a digest and ":" for a tag. */
  datatype Ref = Ref(domain: string, repo: string, sign: string, suffix: string)

  predicate IsDomain(s: string) {
    ':' in s || '.' in s
  }

  /** `<name>`, `<name>:<tag>` or `<name>@<digest>`. */
  datatype Ending = Ending(name: string, sign: string, suffix: string)

  function SplitNameSuffix(s: string): (r: Ending)
    ensures r.sign == "@" || r.sign == ":"
  {
    var at := Split(s, '@');
    if |at| == 2 then Ending(at[0], "@", at[1])
    else
      var colon := Split(s, ':');
      if |colon| == 1 then Ending(colon[0], ":", DEFAULT_TAG)
      else Ending(colon[0], ":", colon[1])
  }

  function RepoOf(path: string, name: string): string {
    if path == "" then name else path + ("/" + name)
  }

  /** The domain and the path component (possibly empty) of a split reference. */
  function Prefix(parts: seq<string>, index: bool): (string, string)
    requires |parts| >= 1
  {
    var default := if index then DEFAULT_INDEX_DOMAIN else DEFAULT_DOMAIN;
    if |parts| == 1 then (default, OFFICIAL_REPO)
    else if |parts| == 2 then
      if IsDomain(parts[0]) then (parts[0], if parts[0] == DEFAULT_DOMAIN then OFFICIAL_REPO else "")
      else (default, parts[0])
    else if IsDomain(parts[0]) then (parts[0], Join(parts[1..|parts| - 1], '/'))
    else (default, Join(parts[..|parts| - 1], '/'))
  }

  function Normalize(ref: string, index: bool): Ref {
    NormalizeParts(Split(ref, '/'), index)
  }

  function NormalizeParts(parts: seq<string>, index: bool): Ref
    requires |parts| >= 1
  {
    var (domain, path) := Prefix(parts, index);
    var e := SplitNameSuffix(parts[|parts| - 1]);
    Ref(domain, RepoOf(path, e.name), e.sign, e.suffix)
  }

  function Marshal(r: Ref): string {
    r.domain + ("/" + (r.repo + (r.sign + r.suffix)))
  }

  function MarshalNormalize(ref: string, index: bool): string {
    Marshal(Normalize(ref, index))
  }

  // ---------- the last component ----------

  function Spell(e: Ending): string {
    e.name + (e.sign + e.suffix)
  }

  lemma SplitOne(a: string, b: string, c: char)
    requires c !in a && c !in b
    ensures Split(a + ([c] + b), c) == [a, b]
  {
    SplitPlus(a, b, c);
    SplitClean(a, c);
    SplitClean(b, c);
  }

  /** An ending that is read back as spelled: no second sign of its kind, and no lone `@` beside `:`. */
  predicate CanonicalEnding(e: Ending) {
    || (e.sign == "@" && '@' !in e.name && '@' !in e.suffix)
    || (e.sign == ":" && ':' !in e.name && ':' !in e.suffix && |Split(Spell(e), '@')| != 2)
  }

  /** Exactly when an ending is read back as it is spelled. */
  lemma EndingReadBack(e: Ending)
    ensures SplitNameSuffix(Spell(e)) == e <==> CanonicalEnding(e)
  {
    if e.sign == "@" && '@' !in e.name && '@' !in e.suffix {
      SplitOne(e.name, e.suffix, '@');
    }
    if e.sign == ":" && ':' !in e.name && ':' !in e.suffix {
      SplitOne(e.name, e.suffix, ':');
    }
    if SplitNameSuffix(Spell(e)) == e && e.sign == "@" {
      var at := Split(Spell(e), '@');
      PartsWithin(Spell(e), '@', '@');
      assert at[0] in at && at[1] in at;
    }
    if SplitNameSuffix(Spell(e)) == e && e.sign == ":" {
      var colon := Split(Spell(e), ':');
      PartsWithin(Spell(e), ':', ':');
      assert colon[0] in colon;
      if |colon| > 1 {
        assert colon[1] in colon;
      }
    }
  }

  /** Reading a spelled ending again may move the sign, but spells the same. */
  lemma SpellAgain(s: string)
    ensures Spell(SplitNameSuffix(Spell(SplitNameSuffix(s)))) == Spell(SplitNameSuffix(s))
  {
    var e := SplitNameSuffix(s);
    var text := Spell(e);
    var at := Split(s, '@');
    PartsWithin(s, '@', '@');
    PartsWithin(s, ':', ':');
    if |at| == 2 {
      assert at[0] in at && at[1] in at;
      SplitOne(e.name, e.suffix, '@');
    } else {
      var colon := Split(s, ':');
      assert colon[0] in colon && (|colon| > 1 ==> colon[1] in colon);
      SplitOne(e.name, e.suffix, ':');
      var again := Split(text, '@');
      if |again| == 2 {
        JoinSplit(text, '@');
        assert Join(again, '@') == again[0] + (['@'] + Join(again[1..], '@'));
      }
    }
  }

  /** An ending read from a component without `/` has none. */
  lemma EndingHasNoSlash(s: string)
    requires '/' !in s
    ensures '/' !in SplitNameSuffix(s).name && '/' !in SplitNameSuffix(s).suffix
  {
    PartsWithin(s, '@', '/');
    PartsWithin(s, ':', '/');
    var at, colon := Split(s, '@'), Split(s, ':');
    assert at[0] in at && colon[0] in colon;
    if |at| > 1 { assert at[1] in at; }
    if |colon| > 1 { assert colon[1] in colon; }
  }

  // ---------- normalising a marshalled reference ----------

  /** The path part of a repository name: everything before its last component. */
  function PathOf(repo: string): string {
    var parts := Split(repo, '/');
    if |parts| == 1 then "" else Join(parts[..|parts| - 1], '/')
  }

  function NameOf(repo: string): string {
    var parts := Split(repo, '/');
    parts[|parts| - 1]
  }

  /** A repository name is its path and its name. */
  lemma RepoParts(repo: string)
    ensures '/' in repo <==> |Split(repo, '/')| >= 2
    ensures '/' !in NameOf(repo)
    ensures repo == if '/' in repo then PathOf(repo) + ("/" + NameOf(repo)) else NameOf(repo)
  {
    NameIsClean(repo);
    if '/' in repo {
      SplitSeveral(repo, '/');
      RepoSpelled(repo);
    } else {
      SplitClean(repo, '/');
    }
  }

  lemma NameIsClean(repo: string)
    ensures '/' !in NameOf(repo)
  {
    LastPartIsClean(repo, '/');
  }

  lemma RepoSpelled(repo: string)
    requires |Split(repo, '/')| >= 2
    ensures repo == PathOf(repo) + ("/" + NameOf(repo))
  {
    SplitCut(repo, '/');
    SlashText();
    CutIs(repo, Split(repo, '/'));
  }

  lemma SlashText()
    ensures ['/'] == "/"
  {
  }

  lemma CutIs(repo: string, parts: seq<string>)
    requires |parts| >= 2 && parts == Split(repo, '/')
    ensures PathOf(repo) == Join(parts[..|parts| - 1], '/') && NameOf(repo) == parts[|parts| - 1]
  {
  }

  /** What every normalised reference satisfies. */
  predicate Proper(r: Ref) {
    && '/' !in r.domain && IsDomain(r.domain)
    && (r.sign == "@" || r.sign == ":") && '/' !in r.suffix
  }

  lemma NormalizeIsProper(ref: string, index: bool)
    ensures Proper(Normalize(ref, index))
  {
    var parts := Split(ref, '/');
    PartsWithin(ref, '/', '/');
    assert parts[0] in parts && parts[|parts| - 1] in parts;
    EndingHasNoSlash(parts[|parts| - 1]);
    assert DEFAULT_DOMAIN[6] == '.' && DEFAULT_INDEX_DOMAIN[5] == '.';
  }

  /** The path that normalisation gives a proper reference. */
  function SecondPath(r: Ref): string {
    if '/' in r.repo then PathOf(r.repo)
    else if r.domain == DEFAULT_DOMAIN then OFFICIAL_REPO
    else ""
  }

  lemma SplitPathName(front: seq<string>, last: string)
    requires |front| >= 1 && '/' !in last && forall p :: p in front ==> '/' !in p
    ensures Split(Join(front, '/') + ("/" + last), '/') == front + [last]
  {
    SplitPlus(Join(front, '/'), last, '/');
    SplitJoined(front, '/');
    SplitClean(last, '/');
  }

  lemma SplitPlainRepo(repo: string, more: string)
    requires '/' !in repo && '/' !in more
    ensures NameOf(repo) == repo && |Split(repo, '/')| == 1
    ensures Split(repo + more, '/') == [repo + more]
  {
    SplitClean(repo, '/');
    SplitClean(repo + more, '/');
  }

  /** Text without `/` after a join goes to the last part. */
  lemma SplitJoinedMore(parts: seq<string>, front: seq<string>, last: string, more: string)
    requires |front| >= 1 && parts == front + [last]
    requires '/' !in more && '/' !in last && forall p :: p in front ==> '/' !in p
    ensures Split(Join(parts, '/') + more, '/') == front + [last + more]
  {
    JoinEnd(parts, front, last, '/');
    Regroup(Join(front, '/'), "/", last, more);
    SplitPathName(front, last + more);
  }

  lemma Regroup(a: string, b: string, c: string, d: string)
    ensures (a + (b + c)) + d == a + (b + (c + d))
  {
  }

  lemma SplitPathParts(parts: seq<string>, more: string)
    requires |parts| >= 2 && '/' !in more && forall p :: p in parts ==> '/' !in p
    ensures Split(Join(parts, '/') + more, '/') == parts[..|parts| - 1] + [parts[|parts| - 1] + more]
  {
    SplitJoinedMore(parts, parts[..|parts| - 1], parts[|parts| - 1], more);
  }

  lemma SplitPathRepo(repo: string, more: string)
    requires '/' in repo && '/' !in more
    ensures |Split(repo, '/')| >= 2
    ensures Split(repo + more, '/') == Split(repo, '/')[..|Split(repo, '/')| - 1] + [NameOf(repo) + more]
  {
    var parts := Split(repo, '/');
    SplitSeveral(repo, '/');
    assert Split(Join(parts, '/') + more, '/') == parts[..|parts| - 1] + [parts[|parts| - 1] + more] by {
      PartsWithin(repo, '/', '/');
      SplitPathParts(parts, more);
    }
    assert Join(parts, '/') == repo by {
      JoinSplit(repo, '/');
    }
  }

  /** A repository name followed by text without `/` splits like the name, the text going to the last part. */
  lemma SplitRepo(repo: string, more: string)
    requires '/' !in more
    ensures var parts := Split(repo, '/');
            Split(repo + more, '/') == parts[..|parts| - 1] + [NameOf(repo) + more]
  {
    if '/' in repo {
      SplitPathRepo(repo, more);
    } else {
      SplitPlainRepo(repo, more);
    }
  }

  lemma SplitMarshal(r: Ref)
    requires Proper(r)
    ensures var parts := Split(r.repo, '/');
            Split(Marshal(r), '/') == [r.domain] + (parts[..|parts| - 1] + [NameOf(r.repo) + (r.sign + r.suffix)])
  {
    SplitRepo(r.repo, r.sign + r.suffix);
    SplitClean(r.domain, '/');
    SplitPlus(r.domain, r.repo + (r.sign + r.suffix), '/');
  }

  /** The prefix of a marshalled proper reference. */
  lemma PrefixMarshal(domain: string, front: seq<string>, last: string, index: bool)
    requires IsDomain(domain)
    ensures Prefix([domain] + (front + [last]), index)
         == (domain, if front != [] then Join(front, '/') else if domain == DEFAULT_DOMAIN then OFFICIAL_REPO else "")
  {
    var all := [domain] + (front + [last]);
    if front != [] {
      assert all[1..|all| - 1] == front;
    }
  }

  lemma NormalizeJoined(domain: string, front: seq<string>, last: string, index: bool)
    requires IsDomain(domain)
    ensures var path := if front != [] then Join(front, '/')
                        else if domain == DEFAULT_DOMAIN then OFFICIAL_REPO else "";
            var e := SplitNameSuffix(last);
            NormalizeParts([domain] + (front + [last]), index) == Ref(domain, RepoOf(path, e.name), e.sign, e.suffix)
  {
    PrefixMarshal(domain, front, last, index);
    var all := [domain] + (front + [last]);
    assert all[|all| - 1] == last;
  }

  /** Normalising a marshalled proper reference, component by component. */
  lemma NormalizeMarshal(r: Ref, index: bool)
    requires Proper(r)
    ensures var e := SplitNameSuffix(NameOf(r.repo) + (r.sign + r.suffix));
            Normalize(Marshal(r), index) == Ref(r.domain, RepoOf(SecondPath(r), e.name), e.sign, e.suffix)
  {
    var parts := Split(r.repo, '/');
    SplitMarshal(r);
    SecondPathIsFront(r);
    NormalizeJoined(r.domain, parts[..|parts| - 1], NameOf(r.repo) + (r.sign + r.suffix), index);
  }

  lemma SecondPathIsFront(r: Ref)
    ensures var parts := Split(r.repo, '/');
            var front := parts[..|parts| - 1];
            SecondPath(r) == if front != [] then Join(front, '/')
                             else if r.domain == DEFAULT_DOMAIN then OFFICIAL_REPO else ""
  {
    RepoParts(r.repo);
  }

  // ---------- the laws ----------

  /**
   * The components round-trip: marshalling and normalising gives the same four
   * components exactly for the tuples with a slash-free domain that contains `.`
   * or `:`, an ending that is read back as spelled, a slash-free suffix, and a
   * repository that either has a non-empty path or stands below a domain other
   * than docker.io.
   */
  lemma ComponentsRoundTripIff(r: Ref, index: bool)
    ensures Normalize(Marshal(r), index) == r <==>
              && '/' !in r.domain && IsDomain(r.domain) && '/' !in r.suffix
              && CanonicalEnding(Ending(NameOf(r.repo), r.sign, r.suffix))
              && (if '/' in r.repo then PathOf(r.repo) != "" else r.domain != DEFAULT_DOMAIN)
  {
    NormalizeIsProper(Marshal(r), index);
    EndingReadBack(Ending(NameOf(r.repo), r.sign, r.suffix));
    if Proper(r) {
      NormalizeMarshal(r, index);
      RepoParts(r.repo);
      var name, path := NameOf(r.repo), SecondPath(r);
      var last := name + (r.sign + r.suffix);
      var e := SplitNameSuffix(last);
      EndingHasNoSlash(last);
      SameRepo(path, e.name, name);
      if '/' !in r.repo && r.domain == DEFAULT_DOMAIN {
        assert RepoOf(path, e.name)[|OFFICIAL_REPO|] == '/';
      }
    }
  }

  lemma SameRepo(path: string, a: string, b: string)
    ensures RepoOf(path, a) == RepoOf(path, b) <==> a == b
  {
    if path != "" && RepoOf(path, a) == RepoOf(path, b) {
      assert (path + ("/" + a))[|path| + 1..] == a;
      assert (path + ("/" + b))[|path| + 1..] == b;
    }
  }

  /** The references whose normal form has no path although its domain is docker.io. */
  predicate LosesPath(ref: string, index: bool) {
    var parts := Split(ref, '/');
    || (|parts| == 2 && parts[0] == "" && !index)
    || (|parts| == 3 && parts[0] == DEFAULT_DOMAIN && parts[1] == "")
  }

  lemma LosesPathMeaning(ref: string, index: bool)
    ensures var (domain, path) := Prefix(Split(ref, '/'), index);
            LosesPath(ref, index) <==> domain == DEFAULT_DOMAIN && path == ""
  {
    var parts := Split(ref, '/');
    assert !IsDomain("");
    assert DEFAULT_DOMAIN[0] != DEFAULT_INDEX_DOMAIN[0];
    assert DEFAULT_DOMAIN[6] == '.';
    if |parts| == 3 {
      assert parts[1..2] == [parts[1]];
    } else if |parts| > 3 {
      JoinContains(parts[1..|parts| - 1], '/');
    }
    if |parts| >= 3 {
      JoinContains(parts[..|parts| - 1], '/');
    }
  }

  lemma RepoSpells(path: string, e: Ending)
    ensures RepoOf(path, e.name) + (e.sign + e.suffix) == if path == "" then Spell(e) else path + ("/" + Spell(e))
  {
  }

  lemma RepoOfParts(path: string, name: string)
    requires '/' !in name
    ensures NameOf(RepoOf(path, name)) == name
    ensures '/' in RepoOf(path, name) <==> path != ""
    ensures path != "" ==> PathOf(RepoOf(path, name)) == path
  {
    SplitClean(name, '/');
    if path != "" {
      assert RepoOf(path, name)[|path|] == '/';
      SplitPlus(path, name, '/');
      JoinSplit(path, '/');
      var parts := Split(path, '/') + [name];
      assert parts[..|parts| - 1] == Split(path, '/');
    }
  }

  /** The text after two passes: only the path can have changed. */
  lemma SecondPass(domain: string, path: string, e: Ending, index: bool)
    requires '/' !in e.name && Proper(Ref(domain, RepoOf(path, e.name), e.sign, e.suffix))
    requires Spell(SplitNameSuffix(Spell(e))) == Spell(e)
    ensures var r := Ref(domain, RepoOf(path, e.name), e.sign, e.suffix);
            var second := if path == "" && domain == DEFAULT_DOMAIN then OFFICIAL_REPO else path;
            && Marshal(r) == domain + ("/" + (if path == "" then Spell(e) else path + ("/" + Spell(e))))
            && MarshalNormalize(Marshal(r), index)
               == domain + ("/" + (if second == "" then Spell(e) else second + ("/" + Spell(e))))
  {
    var r := Ref(domain, RepoOf(path, e.name), e.sign, e.suffix);
    RepoOfParts(path, e.name);
    NormalizeMarshal(r, index);
    var again := SplitNameSuffix(Spell(e));
    RepoSpells(SecondPath(r), again);
    RepoSpells(path, e);
  }

  /** Both passes over any reference: only an empty path below docker.io is changed by the second. */
  lemma TwoPasses(ref: string, index: bool)
    ensures var parts := Split(ref, '/');
            var (domain, path) := Prefix(parts, index);
            var second := if LosesPath(ref, index) then OFFICIAL_REPO else path;
            var last := Spell(SplitNameSuffix(parts[|parts| - 1]));
            && MarshalNormalize(ref, index) == domain + ("/" + (if path == "" then last else path + ("/" + last)))
            && MarshalNormalize(MarshalNormalize(ref, index), index)
               == domain + ("/" + (if second == "" then last else second + ("/" + last)))
  {
    var parts := Split(ref, '/');
    var (domain, path) := Prefix(parts, index);
    var last := parts[|parts| - 1];
    LastPartIsClean(ref, '/');
    NormalizeIsProper(ref, index);
    EndingHasNoSlash(last);
    LosesPathMeaning(ref, index);
    SpellAgain(last);
    var e := SplitNameSuffix(last);
    assert Normalize(ref, index) == Ref(domain, RepoOf(path, e.name), e.sign, e.suffix);
    SecondPass(domain, path, e, index);
  }

  /**
   * Normalisation is idempotent exactly for the references other than `/name`
   * (without the index setting) and `docker.io//name`: those lose their empty
   * path, so the second pass takes them for official images.
   */
  lemma IdempotentIff(ref: string, index: bool)
    ensures MarshalNormalize(MarshalNormalize(ref, index), index) == MarshalNormalize(ref, index)
       <==> !LosesPath(ref, index)
  {
    TwoPasses(ref, index);
    LosesPathMeaning(ref, index);
    if LosesPath(ref, index) {
      assert |MarshalNormalize(MarshalNormalize(ref, index), index)| > |MarshalNormalize(ref, index)|;
    }
  }

  /** In particular normalisation is idempotent on every reference without an empty component. */
  lemma IdempotentWithoutEmptyParts(ref: string, index: bool)
    requires "" !in Split(ref, '/')
    ensures MarshalNormalize(MarshalNormalize(ref, index), index) == MarshalNormalize(ref, index)
  {
    IdempotentIff(ref, index);
    var parts := Split(ref, '/');
    assert forall i :: 0 <= i < |parts| ==> parts[i] in parts;
  }

  // ---------- normal forms without the split ----------

  /** `s` starts with the ending, followed by nothing or by a second colon. */
  ghost predicate StartsWith(s: string, e: Ending) {
    exists rest: string :: (rest == "" || rest[0] == ':') && s == e.name + (":" + (e.suffix + rest))
  }

  /** An ending is read at its only `@`, else at its first `:` (dropping what follows a second one), else as a name. */
  lemma ReadEnding(s: string)
    ensures var e := SplitNameSuffix(s);
            if |Split(s, '@')| == 2 then
              e.sign == "@" && '@' !in e.name && '@' !in e.suffix && s == e.name + ("@" + e.suffix)
            else if ':' !in s then e == Ending(s, ":", "latest")
            else e.sign == ":" && ':' !in e.name && ':' !in e.suffix && StartsWith(s, e)
  {
    var at, colon := Split(s, '@'), Split(s, ':');
    if |at| == 2 {
      PartsWithin(s, '@', '@');
      assert at[0] in at && at[1] in at;
      JoinSplit(s, '@');
      assert at[1..] == [at[1]];
    } else if ':' !in s {
      SplitClean(s, ':');
    } else {
      PartsWithin(s, ':', ':');
      SplitSeveral(s, ':');
      assert colon[0] in colon && colon[1] in colon;
      JoinSplit(s, ':');
      var rest := FirstTwo(colon);
    }
  }

  lemma FirstTwo(parts: seq<string>) returns (rest: string)
    requires |parts| >= 2
    ensures rest == "" || rest[0] == ':'
    ensures Join(parts, ':') == parts[0] + (":" + (parts[1] + rest))
  {
    var tail := parts[1..];
    assert tail[0] == parts[1];
    if |parts| == 2 {
      rest := "";
      assert parts[1] + "" == parts[1];
    } else {
      rest := ":" + Join(tail[1..], ':');
    }
  }

  /** The spelling of a component as it stands in a normal form. */
  function Spelled(last: string): string {
    Spell(SplitNameSuffix(last))
  }

  /** A component with one sign is spelled as it is; one without any gets the default tag. */
  lemma SpelledMeaning(last: string)
    ensures |Split(last, '@')| == 2 || |Split(last, ':')| == 2 ==> Spelled(last) == last
    ensures '@' !in last && ':' !in last ==> Spelled(last) == last + ":latest"
  {
    ReadEnding(last);
    if '@' !in last { SplitClean(last, '@'); }
    if |Split(last, '@')| != 2 && |Split(last, ':')| == 2 {
      OneColon(last);
    }
  }

  lemma OneColon(s: string)
    requires |Split(s, ':')| == 2
    ensures ':' in s && s == Split(s, ':')[0] + (":" + Split(s, ':')[1])
  {
    if ':' !in s { SplitClean(s, ':'); }
    JoinSplit(s, ':');
    assert Split(s, ':')[1..] == [Split(s, ':')[1]];
  }

  function DefaultFor(index: bool): string {
    if index then "index.docker.io" else "docker.io"
  }

  /** The text of a reference with a given domain, path (possibly empty) and last component. */
  function Text(domain: string, path: string, last: string): string {
    domain + ("/" + (if path == "" then last else path + ("/" + last)))
  }

  lemma MarshalPrefix(parts: seq<string>, index: bool)
    requires |parts| >= 1
    ensures var (domain, path) := Prefix(parts, index);
            Marshal(NormalizeParts(parts, index)) == Text(domain, path, Spelled(parts[|parts| - 1]))
  {
    var (domain, path) := Prefix(parts, index);
    RepoSpells(path, SplitNameSuffix(parts[|parts| - 1]));
  }

  /** What stands before the last component, and whether there is a path between it and the domain. */
  lemma FrontParts(parts: seq<string>)
    requires |parts| >= 3
    ensures var front, path := Join(parts[..|parts| - 1], '/'), Join(parts[1..|parts| - 1], '/');
            && front == parts[0] + ("/" + path)
            && (path == "" <==> front == parts[0] + "/") && front != parts[0]
  {
    var before := parts[..|parts| - 1];
    assert before[1..] == parts[1..|parts| - 1] && before[0] == parts[0];
    assert parts[0] + ("/" + "") == parts[0] + "/";
  }

  /** The normal form of a split reference, in terms of the text `front` before its last component. */
  function Normal(first: string, front: string, last: string, index: bool): string {
    if '.' !in first && ':' !in first then Text(DefaultFor(index), front, last)
    else if front == first then Text(first, if first == "docker.io" then "library" else "", last)
    else if front == first + "/" then Text(first, "", last)
    else front + ("/" + last)
  }

  lemma NormalParts(parts: seq<string>, index: bool)
    requires |parts| >= 2
    ensures Marshal(NormalizeParts(parts, index))
         == Normal(parts[0], Join(parts[..|parts| - 1], '/'), Spelled(parts[|parts| - 1]), index)
  {
    MarshalPrefix(parts, index);
    if |parts| == 2 {
      assert parts[..1] == [parts[0]];
    } else {
      FrontParts(parts);
      var path, last := Join(parts[1..|parts| - 1], '/'), Spelled(parts[|parts| - 1]);
      Regroup(parts[0], "/", path, "/" + last);
    }
  }

  /**
   * The normal form of any reference, from its text: without `/` it is an
   * official image of the default domain; when it does not start with a domain,
   * the default one is put before it; and with a domain it is kept, except that
   * `docker.io/name` gains `library` and `domain//name` loses its empty path.
   * In every case the last component is spelled with its tag or digest.
   */
  lemma NormalForm(ref: string, index: bool)
    ensures MarshalNormalize(ref, index) ==
              if '/' !in ref then Text(DefaultFor(index), "library", Spelled(ref))
              else Normal(Split(ref, '/')[0], PathOf(ref), Spelled(NameOf(ref)), index)
  {
    if '/' in ref {
      NormalFormPath(ref, index);
    } else {
      NormalFormName(ref, index);
    }
  }

  lemma NormalFormPath(ref: string, index: bool)
    requires '/' in ref
    ensures MarshalNormalize(ref, index) == Normal(Split(ref, '/')[0], PathOf(ref), Spelled(NameOf(ref)), index)
  {
    var parts := Split(ref, '/');
    assert |parts| >= 2 by { SplitSeveral(ref, '/'); }
    assert PathOf(ref) == Join(parts[..|parts| - 1], '/') && NameOf(ref) == parts[|parts| - 1];
    assert Marshal(NormalizeParts(parts, index)) == Normal(parts[0], PathOf(ref), Spelled(NameOf(ref)), index) by {
      NormalParts(parts, index);
    }
  }

  lemma NormalFormName(name: string, index: bool)
    requires '/' !in name
    ensures MarshalNormalize(name, index) == Text(DefaultFor(index), "library", Spelled(name))
  {
    SplitClean(name, '/');
    MarshalPrefix([name], index);
  }

  /**
   * A reference whose last component is read back as it is spelled is kept as it
   * is, behind the default domain if it has none of its own, unless its path is
   * empty.
   */
  lemma ReferenceIsKept(ref: string, index: bool)
    requires '/' in ref && Spelled(NameOf(ref)) == NameOf(ref)
    ensures var first, front := Split(ref, '/')[0], PathOf(ref);
            && ('.' !in first && ':' !in first && front != "" ==>
                  MarshalNormalize(ref, index) == DefaultFor(index) + ("/" + ref))
            && (('.' in first || ':' in first) && front != "docker.io" && front != first + "/" ==>
                  MarshalNormalize(ref, index) == ref)
  {
    NormalForm(ref, index);
    RepoParts(ref);
  }

  // ---------- two passes over `/ubuntu` and `docker.io//ubuntu` ----------

  /** A name without signs is an ending with the default tag. */
  lemma ReadPlainName(name: string)
    requires '@' !in name && ':' !in name
    ensures SplitNameSuffix(name) == Ending(name, ":", DEFAULT_TAG)
  {
    SplitClean(name, '@');
    SplitClean(name, ':');
  }

  lemma SplitEmptyPath(domain: string, name: string)
    requires '/' !in name && '/' !in domain
    ensures Split(['/'] + name, '/') == ["", name]
    ensures Split(domain + (['/'] + (['/'] + name)), '/') == [domain, "", name]
  {
    SplitOne("", name, '/');
    assert "" + (['/'] + name) == ['/'] + name;
    SplitPlus(domain, ['/'] + name, '/');
    SplitClean(domain, '/');
  }

  /** Two passes over a reference whose parts are an empty path and a plain name: the second adds `library`. */
  lemma EmptyPathPasses(ref: string, name: string, index: bool)
    requires '@' !in name && ':' !in name
    requires (Split(ref, '/') == ["", name] && !index) || Split(ref, '/') == [DEFAULT_DOMAIN, "", name]
    ensures MarshalNormalize(ref, index) == DEFAULT_DOMAIN + ("/" + (name + (":" + DEFAULT_TAG)))
    ensures MarshalNormalize(MarshalNormalize(ref, index), index)
         == DEFAULT_DOMAIN + ("/" + (OFFICIAL_REPO + ("/" + (name + (":" + DEFAULT_TAG)))))
  {
    ReadPlainName(name);
    LosesPathMeaning(ref, index);
    TwoPasses(ref, index);
  }

  lemma UbuntuSpelled()
    ensures DEFAULT_DOMAIN + ("/" + ("ubuntu" + (":" + DEFAULT_TAG))) == "docker.io/ubuntu:latest"
    ensures DEFAULT_DOMAIN + ("/" + (OFFICIAL_REPO + ("/" + ("ubuntu" + (":" + DEFAULT_TAG)))))
         == "docker.io/library/ubuntu:latest"
  {
  }

  lemma UbuntuSplit(ref: string, name: string)
    requires name == "ubuntu"
    ensures ref == "/ubuntu" ==> Split(ref, '/') == ["", name]
    ensures ref == "docker.io//ubuntu" ==> Split(ref, '/') == [DEFAULT_DOMAIN, "", name]
  {
    SplitEmptyPath(DEFAULT_DOMAIN, name);
    assert ['/'] + name == "/ubuntu";
    assert DEFAULT_DOMAIN + (['/'] + (['/'] + name)) == "docker.io//ubuntu";
  }

  /**
   * `/ubuntu` without the index setting, and `docker.io//ubuntu` with either:
   * the second pass makes them official images.
   */
  lemma EmptyPathExamples(ref: string, index: bool)
    requires (ref == "/ubuntu" && !index) || ref == "docker.io//ubuntu"
    ensures MarshalNormalize(ref, index) == "docker.io/ubuntu:latest"
    ensures MarshalNormalize(MarshalNormalize(ref, index), index) == "docker.io/library/ubuntu:latest"
  {
    var name: string :| name == "ubuntu";
    UbuntuSpelled();
    UbuntuSplit(ref, name);
    EmptyPathPasses(ref, name, index);
  }
}
