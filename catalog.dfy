/**
 * The catalog builder: the expansion of one metapackage into application
 * entries and further metapackages (`process_meta`), and the breadth-first
 * walk over metapackages from `hamradio-all` that collects, deduplicates and
 * sorts the entries (`main`, up to the sort).
 */
module Catalog {
  import opened Wrappers
  import opened Text
  import opened AptParse
  import opened Entries

  /** The metapackage the walk starts from. */
  const Root := "hamradio-all"

  /** The prefix cut from a metapackage name to form the category of its entries. */
  const Prefix := "hamradio-"

  /** Every name in the list is non-empty: `process_meta` reads the first character of each. */
  predicate NonEmptyNames(tokens: seq<string>) {
    forall i :: 0 <= i < |tokens| ==> tokens[i] != []
  }

  /** No dependency list the depends oracle can produce holds an empty name. */
  predicate DependsWellFormed(depends: Oracle) {
    forall p :: p in depends ==> NonEmptyNames(PackTree(depends, p))
  }

  lemma PackTreeNonEmpty(depends: Oracle, p: string)
    requires DependsWellFormed(depends)
    ensures NonEmptyNames(PackTree(depends, p))
  {
    if p !in depends {
      assert PackTree(depends, p) == [];
    }
  }

  // ---------------------------------------------------------------------
  // process_meta
  // ---------------------------------------------------------------------

  /** A dependency name written `<...>` stands for a virtual package. */
  predicate IsVirtual(token: string)
    requires token != []
  {
    token[0] == '<' && token[|token| - 1] == '>'
  }

  /** `meta.split('hamradio-')[-1]`: the category of the entries found under `meta`. */
  function ShortName(meta: string): string {
    var parts := SplitOn(meta, Prefix);
    parts[|parts| - 1]
  }

  /** What one dependency of the metapackage being expanded turns into. */
  datatype Kind = Virtual | SubMeta(name: string) | Component(entry: Entry) | Unresolved

  function Classify(show: Oracle, meta: string, token: string): Kind
    requires ShowWellFormed(show) && token != []
  {
    if IsVirtual(token) then Virtual else KindOf(meta, PackInfo(show, token))
  }

  /** A metapackage when the section says so and a name was read; otherwise an entry when name and description were read. */
  function KindOf(meta: string, info: Info): Kind {
    if info.meta == Some(true) && Truthy(info.name) then SubMeta(info.name.value)
    else if Truthy(info.name) && Truthy(info.description) then
      Component(Entry(info.name.value, ShortName(meta), info.description.value))
    else Unresolved
  }

  /** The two lists `process_meta` returns. */
  datatype Parts = Parts(packs: seq<Entry>, metas: seq<string>)

  /** The lists after one more dependency of the given kind. */
  function Extend(r: Parts, kind: Kind): Parts {
    match kind
    case SubMeta(n) => r.(metas := r.metas + [n])
    case Component(e) => r.(packs := r.packs + [e])
    case _ => r
  }

  /** The lists built from a dependency list, one dependency after another. */
  function Expand(show: Oracle, meta: string, tokens: seq<string>): Parts
    requires ShowWellFormed(show) && NonEmptyNames(tokens)
  {
    if tokens == [] then Parts([], [])
    else Extend(Expand(show, meta, tokens[..|tokens| - 1]), Classify(show, meta, tokens[|tokens| - 1]))
  }

  lemma ExpandPrefix(show: Oracle, meta: string, tokens: seq<string>, i: nat)
    requires ShowWellFormed(show) && NonEmptyNames(tokens) && i < |tokens|
    ensures NonEmptyNames(tokens[..i]) && NonEmptyNames(tokens[..i + 1])
    ensures Expand(show, meta, tokens[..i + 1]) == Extend(Expand(show, meta, tokens[..i]), Classify(show, meta, tokens[i]))
  {
    assert tokens[..i + 1][..i] == tokens[..i];
  }

  /** `process_meta(meta)` */
  function MetaParts(depends: Oracle, show: Oracle, meta: string): Parts
    requires DependsWellFormed(depends) && ShowWellFormed(show)
  {
    PackTreeNonEmpty(depends, meta);
    Expand(show, meta, PackTree(depends, meta))
  }

  /** The loop body of `process_meta` for one dependency: skipped when virtual, otherwise read and classified. */
  method ClassifyDependency(show: Oracle, metapackage: string, package: string) returns (kind: Kind)
    requires ShowWellFormed(show) && package != []
    ensures kind == Classify(show, metapackage, package)
  {
    if package[0] == '<' && package[|package| - 1] == '>' {
      return Virtual;
    }
    var info := GetPackInfo(show, package);
    if info.meta == Some(true) && Truthy(info.name) {
      kind := SubMeta(info.name.value);
    } else if Truthy(info.name) && Truthy(info.description) {
      var parts := SplitOn(metapackage, Prefix);
      kind := Component(Entry(info.name.value, parts[|parts| - 1], info.description.value));
    } else {
      kind := Unresolved;
    }
  }

  method ProcessMeta(depends: Oracle, show: Oracle, metapackage: string) returns (packages: seq<Entry>, metas: seq<string>)
    requires NonEmptyNames(PackTree(depends, metapackage)) && ShowWellFormed(show)
    ensures Parts(packages, metas) == Expand(show, metapackage, PackTree(depends, metapackage))
  {
    packages, metas := [], [];
    var components := GetPackTree(depends, metapackage);
    assert components[..0] == [];
    for i := 0 to |components|
      invariant ExpandedUpTo(show, metapackage, components, i, Parts(packages, metas))
    {
      var kind := ClassifyDependency(show, metapackage, components[i]);
      ExpandedStep(show, metapackage, components, i, Parts(packages, metas));
      ghost var extended := Extend(Parts(packages, metas), kind);
      match kind {
        case SubMeta(name) => metas := metas + [name];
        case Component(entry) => packages := packages + [entry];
        case _ =>
      }
      assert Parts(packages, metas) == extended;
    }
    assert components[..|components|] == components;
  }

  /** The lists hold what the first `i` dependencies expand to. */
  ghost predicate ExpandedUpTo(show: Oracle, meta: string, tokens: seq<string>, i: nat, r: Parts)
    requires ShowWellFormed(show) && NonEmptyNames(tokens) && i <= |tokens|
  {
    NonEmptyNames(tokens[..i]) && r == Expand(show, meta, tokens[..i])
  }

  lemma ExpandedStep(show: Oracle, meta: string, tokens: seq<string>, i: nat, r: Parts)
    requires ShowWellFormed(show) && NonEmptyNames(tokens) && i < |tokens|
    requires ExpandedUpTo(show, meta, tokens, i, r)
    ensures ExpandedUpTo(show, meta, tokens, i + 1, Extend(r, Classify(show, meta, tokens[i])))
  {
    ExpandPrefix(show, meta, tokens, i);
  }

  /**
   * The entries and metapackages found are exactly those the dependencies
   * classify as such; in particular a virtual dependency contributes to neither.
   */
  lemma ExpandMembers(show: Oracle, meta: string, tokens: seq<string>)
    requires ShowWellFormed(show) && NonEmptyNames(tokens)
    ensures forall e :: e in Expand(show, meta, tokens).packs <==> Yields(show, meta, tokens, Component(e))
    ensures forall n :: n in Expand(show, meta, tokens).metas <==> Yields(show, meta, tokens, SubMeta(n))
  {
    ExpandPacks(show, meta, tokens);
    ExpandMetas(show, meta, tokens);
  }

  /** Some dependency of the list classifies as `kind`. */
  predicate Yields(show: Oracle, meta: string, tokens: seq<string>, kind: Kind)
    requires ShowWellFormed(show) && NonEmptyNames(tokens)
  {
    exists i :: 0 <= i < |tokens| && Classify(show, meta, tokens[i]) == kind
  }

  lemma YieldsSnoc(show: Oracle, meta: string, tokens: seq<string>, kind: Kind)
    requires ShowWellFormed(show) && NonEmptyNames(tokens) && tokens != []
    ensures NonEmptyNames(tokens[..|tokens| - 1])
    ensures Yields(show, meta, tokens, kind) <==>
      Yields(show, meta, tokens[..|tokens| - 1], kind) || Classify(show, meta, tokens[|tokens| - 1]) == kind
  {
    YieldsFromInit(show, meta, tokens, kind);
    YieldsToInit(show, meta, tokens, kind);
  }

  lemma YieldsFromInit(show: Oracle, meta: string, tokens: seq<string>, kind: Kind)
    requires ShowWellFormed(show) && NonEmptyNames(tokens) && tokens != []
    ensures NonEmptyNames(tokens[..|tokens| - 1])
    ensures Yields(show, meta, tokens[..|tokens| - 1], kind) ==> Yields(show, meta, tokens, kind)
  {
    var init := tokens[..|tokens| - 1];
    if Yields(show, meta, init, kind) {
      var i :| 0 <= i < |init| && Classify(show, meta, init[i]) == kind;
      assert tokens[i] == init[i];
    }
  }

  lemma YieldsToInit(show: Oracle, meta: string, tokens: seq<string>, kind: Kind)
    requires ShowWellFormed(show) && NonEmptyNames(tokens) && tokens != []
    ensures NonEmptyNames(tokens[..|tokens| - 1])
    ensures Yields(show, meta, tokens, kind) ==>
      Yields(show, meta, tokens[..|tokens| - 1], kind) || Classify(show, meta, tokens[|tokens| - 1]) == kind
  {
    var init := tokens[..|tokens| - 1];
    if Yields(show, meta, tokens, kind) {
      var i :| 0 <= i < |tokens| && Classify(show, meta, tokens[i]) == kind;
      if i < |init| {
        assert init[i] == tokens[i];
      }
    }
  }

  lemma {:induction false} ExpandPacks(show: Oracle, meta: string, tokens: seq<string>)
    requires ShowWellFormed(show) && NonEmptyNames(tokens)
    ensures forall e :: e in Expand(show, meta, tokens).packs <==> Yields(show, meta, tokens, Component(e))
  {
    if tokens != [] {
      var init, last := tokens[..|tokens| - 1], tokens[|tokens| - 1];
      YieldsSnoc(show, meta, tokens, Unresolved);
      ExpandPacks(show, meta, init);
      var r, kind := Expand(show, meta, init), Classify(show, meta, last);
      assert Expand(show, meta, tokens) == Extend(r, kind);
      forall e ensures e in Extend(r, kind).packs <==> Yields(show, meta, tokens, Component(e)) {
        YieldsSnoc(show, meta, tokens, Component(e));
      }
    }
  }

  lemma {:induction false} ExpandMetas(show: Oracle, meta: string, tokens: seq<string>)
    requires ShowWellFormed(show) && NonEmptyNames(tokens)
    ensures forall n :: n in Expand(show, meta, tokens).metas <==> Yields(show, meta, tokens, SubMeta(n))
  {
    if tokens != [] {
      var init, last := tokens[..|tokens| - 1], tokens[|tokens| - 1];
      YieldsSnoc(show, meta, tokens, Unresolved);
      ExpandMetas(show, meta, init);
      var r, kind := Expand(show, meta, init), Classify(show, meta, last);
      assert Expand(show, meta, tokens) == Extend(r, kind);
      forall n ensures n in Extend(r, kind).metas <==> Yields(show, meta, tokens, SubMeta(n)) {
        YieldsSnoc(show, meta, tokens, SubMeta(n));
      }
    }
  }

  /**
   * An entry comes from a non-virtual dependency whose query succeeded with a
   * non-empty name and description outside the metapackages section, and its
   * category is the short name of the metapackage expanded.
   */
  lemma EntrySound(show: Oracle, meta: string, tokens: seq<string>, e: Entry)
    requires ShowWellFormed(show) && NonEmptyNames(tokens)
    requires e in Expand(show, meta, tokens).packs
    ensures e.app != "" && e.desc != "" && e.pack == ShortName(meta)
    ensures exists i :: (0 <= i < |tokens| && !IsVirtual(tokens[i]) && tokens[i] in show &&
      PackInfo(show, tokens[i]) == Info(Some(e.app), Some(e.desc), Some(false)))
  {
    ExpandMembers(show, meta, tokens);
    var i :| 0 <= i < |tokens| && Classify(show, meta, tokens[i]) == Component(e);
    var info := PackInfo(show, tokens[i]);
    assert info.meta.Some?;
  }

  /** A metapackage found is the name reported for a non-virtual dependency whose section is `metapackages`. */
  lemma SubMetaSound(show: Oracle, meta: string, tokens: seq<string>, n: string)
    requires ShowWellFormed(show) && NonEmptyNames(tokens)
    requires n in Expand(show, meta, tokens).metas
    ensures n != ""
    ensures exists i :: (0 <= i < |tokens| && !IsVirtual(tokens[i]) && tokens[i] in show &&
      PackInfo(show, tokens[i]).name == Some(n) && PackInfo(show, tokens[i]).meta == Some(true))
  {
    ExpandMembers(show, meta, tokens);
    var i :| 0 <= i < |tokens| && Classify(show, meta, tokens[i]) == SubMeta(n);
  }

  /** The non-virtual dependencies, in order. */
  function Concrete(tokens: seq<string>): (r: seq<string>)
    requires NonEmptyNames(tokens)
    ensures NonEmptyNames(r)
  {
    if tokens == [] then []
    else
      var last := tokens[|tokens| - 1];
      Concrete(tokens[..|tokens| - 1]) + (if IsVirtual(last) then [] else [last])
  }

  /** Dropping the virtual dependencies beforehand changes nothing. */
  lemma {:induction false} VirtualIgnored(show: Oracle, meta: string, tokens: seq<string>)
    requires ShowWellFormed(show) && NonEmptyNames(tokens)
    ensures Expand(show, meta, Concrete(tokens)) == Expand(show, meta, tokens)
  {
    if tokens != [] {
      var init, last := tokens[..|tokens| - 1], tokens[|tokens| - 1];
      VirtualIgnored(show, meta, init);
      assert tokens[..|tokens| - 1] == init;
      if !IsVirtual(last) {
        var c := Concrete(init) + [last];
        assert Concrete(tokens) == c;
        assert c[..|c| - 1] == Concrete(init) && c[|c| - 1] == last;
        assert Expand(show, meta, c) == Extend(Expand(show, meta, Concrete(init)), Classify(show, meta, last));
      } else {
        assert Concrete(tokens) == Concrete(init);
        assert Classify(show, meta, last) == Virtual;
      }
    }
  }

  /** The category of the entries under `hamradio-<s>` is `<s>`, and a name without the prefix is its own category. */
  lemma ShortNameSpec(s: string)
    requires !Occurs(Prefix, s)
    ensures ShortName(Prefix + s) == s
    ensures ShortName(s) == s
  {
    LabelRead(s, Prefix);
    SplitAbsent(s, Prefix);
  }

  // ---------------------------------------------------------------------
  // The walk over metapackages
  // ---------------------------------------------------------------------

  /** A text without some character of `t` does not hold `t`. */
  lemma AbsentByChar(t: string, s: string, k: nat)
    requires k < |t| && t[k] !in s
    ensures !Occurs(t, s)
  {
    if Occurs(t, s) {
      OccursCharIn(t, s, k);
    }
  }

  /**
   * A worked example, for any names: the metapackage `hamradio-<s>`
   * whose dependencies are a virtual package, a library and a
   * sub-metapackage yields one entry for the library, categorised as `<s>`,
   * and the sub-metapackage to expand.
   */
  lemma ExpansionExample(s: string, virtual: string, lib: string, libSection: string, libDesc: string,
                         sub: string, subDesc: string)
    requires PlainName(Prefix + s) && !Occurs(Prefix, s)
    requires PlainName(virtual) && |virtual| >= 2 && virtual[0] == '<' && virtual[|virtual| - 1] == '>'
    requires PlainName(lib) && lib != [] && lib[0] != '<' && PlainName(libSection) && libSection != "metapackages"
    requires PlainName(sub) && sub != [] && sub[0] != '<' && lib != sub
    requires OneLine(libDesc) && libDesc != [] && OneLine(subDesc)
    ensures var depends := map[Prefix + s := DependsOutput(Prefix + s,
              [Dependency(Depends, virtual), Dependency(Depends, lib), Dependency(Recommends, sub)])];
      var show := map[lib := ShowOutput(lib, libSection, libDesc), sub := ShowOutput(sub, "metapackages", subDesc)];
      DependsWellFormed(depends) && ShowWellFormed(show) &&
      MetaParts(depends, show, Prefix + s) == Parts([Entry(lib, s, libDesc)], [sub])
  {
    var m := Prefix + s;
    var ds := [Dependency(Depends, virtual), Dependency(Depends, lib), Dependency(Recommends, sub)];
    var depends := map[m := DependsOutput(m, ds)];
    var show := map[lib := ShowOutput(lib, libSection, libDesc), sub := ShowOutput(sub, "metapackages", subDesc)];
    var tokens := [virtual, lib, sub];
    TreeOfThree(m, virtual, lib, sub);
    assert DependsWellFormed(depends) by {
      forall p | p in depends ensures NonEmptyNames(PackTree(depends, p)) {
        assert p == m;
      }
    }
    ExampleKinds(s, virtual, lib, libSection, libDesc, sub, subDesc);
    ExpandThree(show, m, virtual, lib, sub);
  }

  /** How the three dependencies of the example are classified. */
  lemma ExampleKinds(s: string, virtual: string, lib: string, libSection: string, libDesc: string,
                     sub: string, subDesc: string)
    requires |virtual| >= 2 && virtual[0] == '<' && virtual[|virtual| - 1] == '>' && !Occurs(Prefix, s)
    requires PlainName(lib) && lib != [] && lib[0] != '<' && PlainName(libSection) && libSection != "metapackages"
    requires PlainName(sub) && sub != [] && sub[0] != '<' && lib != sub
    requires OneLine(libDesc) && libDesc != [] && OneLine(subDesc)
    ensures var show := map[lib := ShowOutput(lib, libSection, libDesc), sub := ShowOutput(sub, "metapackages", subDesc)];
      ShowWellFormed(show) &&
      Classify(show, Prefix + s, virtual) == Virtual &&
      Classify(show, Prefix + s, lib) == Component(Entry(lib, s, libDesc)) &&
      Classify(show, Prefix + s, sub) == SubMeta(sub)
  {
    ShowPair(lib, libSection, libDesc, sub, "metapackages", subDesc);
    ShortNameSpec(s);
  }

  /** A `depends` listing of three dependencies reads back as their three names. */
  lemma TreeOfThree(m: string, x: string, y: string, z: string)
    requires PlainName(m) && PlainName(x) && PlainName(y) && PlainName(z)
    ensures PackTree(map[m := DependsOutput(m, [Dependency(Depends, x), Dependency(Depends, y), Dependency(Recommends, z)])], m)
      == [x, y, z]
  {
    var ds := [Dependency(Depends, x), Dependency(Depends, y), Dependency(Recommends, z)];
    PackTreeRoundTrip(m, ds);
    assert ds[1..][1..] == [Dependency(Recommends, z)] && ds[1..][1..][1..] == [];
    assert Names(ds[1..][1..]) == [z];
    assert Names(ds[1..]) == [y, z];
  }

  lemma ExpandThree(show: Oracle, meta: string, x: string, y: string, z: string)
    requires ShowWellFormed(show) && x != [] && y != [] && z != []
    ensures Expand(show, meta, [x, y, z]) ==
      Extend(Extend(Extend(Parts([], []), Classify(show, meta, x)), Classify(show, meta, y)), Classify(show, meta, z))
  {
    var tokens := [x, y, z];
    assert tokens[..0] == [] && tokens[..3] == tokens;
    ExpandPrefix(show, meta, tokens, 0);
    ExpandPrefix(show, meta, tokens, 1);
    ExpandPrefix(show, meta, tokens, 2);
  }

  /** A description `apt-cache show` prints on one line, stripped, without parentheses or a field label. */
  predicate OneLine(description: string) {
    '\n' !in description && '(' !in description && ':' !in description &&
    (description == [] || (!IsSpace(description[0]) && !IsSpace(description[|description| - 1])))
  }

  /** Two printed stanzas under their own names read back as printed. */
  lemma ShowPair(a: string, aSection: string, aDesc: string, b: string, bSection: string, bDesc: string)
    requires PlainName(a) && PlainName(aSection) && OneLine(aDesc)
    requires PlainName(b) && PlainName(bSection) && OneLine(bDesc) && a != b
    ensures var show := map[a := ShowOutput(a, aSection, aDesc), b := ShowOutput(b, bSection, bDesc)];
      ShowWellFormed(show) &&
      PackInfo(show, a) == Info(Some(a), Some(aDesc), Some(aSection == "metapackages")) &&
      PackInfo(show, b) == Info(Some(b), Some(bDesc), Some(bSection == "metapackages"))
  {
    var sa, sb := ShowOutput(a, aSection, aDesc), ShowOutput(b, bSection, bDesc);
    LabelAbsent("Description-en: ", aDesc);
    LabelAbsent("Description-en: ", bDesc);
    PackInfoRoundTrip(a, a, aSection, aDesc);
    PackInfoRoundTrip(b, b, bSection, bDesc);
    assert Readable(Lines(sa), Unset) by {
      assert a in map[a := sa];
    }
    assert Readable(Lines(sb), Unset) by {
      assert b in map[b := sb];
    }
  }

  /** The metapackages found under `meta`. */
  function SubMetas(depends: Oracle, show: Oracle, meta: string): seq<string>
    requires DependsWellFormed(depends) && ShowWellFormed(show)
  {
    MetaParts(depends, show, meta).metas
  }

  /** The entries found, metapackage after metapackage, before deduplication. */
  function Discovered(depends: Oracle, show: Oracle, expanded: seq<string>): seq<Entry>
    requires DependsWellFormed(depends) && ShowWellFormed(show)
  {
    if expanded == [] then []
    else Discovered(depends, show, expanded[..|expanded| - 1]) + MetaParts(depends, show, expanded[|expanded| - 1]).packs
  }

  predicate NoDuplicates(s: seq<string>) {
    forall i, j :: 0 <= i < j < |s| ==> s[i] != s[j]
  }

  /** Every name of `found` is in `order`. */
  predicate Contains(order: seq<string>, found: seq<string>) {
    forall m :: m in found ==> m in order
  }

  /** Every metapackage found under one of the first `n` names is among the names. */
  predicate ClosedUpTo(depends: Oracle, show: Oracle, order: seq<string>, n: nat)
    requires DependsWellFormed(depends) && ShowWellFormed(show) && n <= |order|
  {
    forall j :: 0 <= j < n ==> Contains(order, SubMetas(depends, show, order[j]))
  }

  /** Name `i` was found under an earlier name among the first `n`. */
  predicate FoundUnder(depends: Oracle, show: Oracle, order: seq<string>, i: nat, n: nat)
    requires DependsWellFormed(depends) && ShowWellFormed(show) && i < |order| && n <= |order|
  {
    exists j :: 0 <= j < i && j < n && order[i] in SubMetas(depends, show, order[j])
  }

  /** Every name after the first was found under an earlier one among the first `n`. */
  predicate ReachedFrom(depends: Oracle, show: Oracle, order: seq<string>, n: nat)
    requires DependsWellFormed(depends) && ShowWellFormed(show) && n <= |order|
  {
    forall i :: 0 < i < |order| ==> FoundUnder(depends, show, order, i, n)
  }

  /**
   * `expanded` lists, each once, exactly the metapackages reachable from the
   * root: it starts at the root, every later name was found under an earlier
   * one, and everything found under any of them is in it.
   */
  predicate CompleteWalk(depends: Oracle, show: Oracle, expanded: seq<string>)
    requires DependsWellFormed(depends) && ShowWellFormed(show)
  {
    |expanded| > 0 && expanded[0] == Root && NoDuplicates(expanded) &&
    ClosedUpTo(depends, show, expanded, |expanded|) &&
    ReachedFrom(depends, show, expanded, |expanded|)
  }

  /** A set of names that holds the root and everything found under any of its members. */
  ghost predicate ClosedSet(depends: Oracle, show: Oracle, names: set<string>)
    requires DependsWellFormed(depends) && ShowWellFormed(show)
  {
    Root in names && forall m, x :: m in names && x in SubMetas(depends, show, m) ==> x in names
  }

  /**
   * The walk expands the least such set: it is itself one, and every such set
   * holds all of its names.
   */
  lemma WalkIsLeast(depends: Oracle, show: Oracle, expanded: seq<string>, names: set<string>)
    requires DependsWellFormed(depends) && ShowWellFormed(show)
    requires CompleteWalk(depends, show, expanded)
    ensures ClosedSet(depends, show, set x | x in expanded)
    ensures ClosedSet(depends, show, names) ==> forall x :: x in expanded ==> x in names
  {
    var own := set x | x in expanded;
    forall m, x | m in own && x in SubMetas(depends, show, m) ensures x in own {
      var j :| 0 <= j < |expanded| && expanded[j] == m;
      assert Contains(expanded, SubMetas(depends, show, expanded[j]));
    }
    assert Root in own by {
      assert expanded[0] in expanded;
    }
    if ClosedSet(depends, show, names) {
      forall i | 0 <= i < |expanded| ensures expanded[i] in names {
        WalkPrefixInSet(depends, show, expanded, names, i);
      }
    }
  }

  lemma {:induction false} WalkPrefixInSet(depends: Oracle, show: Oracle, expanded: seq<string>, names: set<string>, i: nat)
    requires DependsWellFormed(depends) && ShowWellFormed(show)
    requires CompleteWalk(depends, show, expanded) && ClosedSet(depends, show, names)
    requires i < |expanded|
    ensures expanded[i] in names
    decreases i
  {
    if i > 0 {
      assert FoundUnder(depends, show, expanded, i, |expanded|);
      var j :| 0 <= j < i && j < |expanded| && expanded[i] in SubMetas(depends, show, expanded[j]);
      WalkPrefixInSet(depends, show, expanded, names, j);
    }
  }

  /** Every name a metapackage can be found under: the root and the names the show oracle reports. */
  ghost function Universe(show: Oracle): set<string>
    requires ShowWellFormed(show)
  {
    {Root} + set p | p in show && PackInfo(show, p).name.Some? :: PackInfo(show, p).name.value
  }

  lemma SubMetasInUniverse(depends: Oracle, show: Oracle, meta: string, m: string)
    requires DependsWellFormed(depends) && ShowWellFormed(show)
    requires m in SubMetas(depends, show, meta)
    ensures m in Universe(show)
  {
    PackTreeNonEmpty(depends, meta);
    SubMetaSound(show, meta, PackTree(depends, meta), m);
  }

  lemma DiscoveredStep(depends: Oracle, show: Oracle, expanded: seq<string>, meta: string)
    requires DependsWellFormed(depends) && ShowWellFormed(show)
    ensures Discovered(depends, show, expanded + [meta]) ==
      Discovered(depends, show, expanded) + MetaParts(depends, show, meta).packs
  {
    assert (expanded + [meta])[..|expanded|] == expanded;
  }

  lemma DedupStep(s: seq<Entry>, e: Entry)
    ensures Dedup(s + [e]) == if HasApp(Dedup(s), e.app) then Dedup(s) else Dedup(s) + [e]
  {
    assert (s + [e])[..|s|] == s;
  }

  lemma {:induction false} ReachedMonotone(depends: Oracle, show: Oracle, order: seq<string>, n: nat)
    requires DependsWellFormed(depends) && ShowWellFormed(show) && n < |order|
    requires ReachedFrom(depends, show, order, n)
    ensures ReachedFrom(depends, show, order, n + 1)
  {
    var n' := n + 1;
    forall i | 0 < i < |order|
      ensures FoundUnder(depends, show, order, i, n')
    {
      assert FoundUnder(depends, show, order, i, n);
      var j :| 0 <= j < i && j < n && order[i] in SubMetas(depends, show, order[j]);
    }
  }

  /**
   * Appending to the names, after those already there, names found under name
   * `n - 1` until all of them are present keeps every name reachable and
   * closes the first `n` names.
   */
  lemma WalkExtend(depends: Oracle, show: Oracle, order: seq<string>, order': seq<string>, n: nat)
    requires DependsWellFormed(depends) && ShowWellFormed(show) && 0 < n <= |order| <= |order'|
    requires order'[..|order|] == order
    requires ClosedUpTo(depends, show, order, n - 1) && ReachedFrom(depends, show, order, n)
    requires forall x :: x in order ==> x in Universe(show)
    requires forall i :: |order| <= i < |order'| ==> order'[i] in SubMetas(depends, show, order[n - 1])
    requires Contains(order', SubMetas(depends, show, order[n - 1]))
    ensures ClosedUpTo(depends, show, order', n) && ReachedFrom(depends, show, order', n)
    ensures forall x :: x in order' ==> x in Universe(show)
  {
    ReachExtend(depends, show, order, order', n);
    CloseExtend(depends, show, order, order', n);
    UniverseExtend(depends, show, order, order', n);
  }

  lemma ReachExtend(depends: Oracle, show: Oracle, order: seq<string>, order': seq<string>, n: nat)
    requires DependsWellFormed(depends) && ShowWellFormed(show) && 0 < n <= |order| <= |order'|
    requires order'[..|order|] == order
    requires ReachedFrom(depends, show, order, n)
    requires forall i :: |order| <= i < |order'| ==> order'[i] in SubMetas(depends, show, order[n - 1])
    ensures ReachedFrom(depends, show, order', n)
  {
    forall i | 0 <= i < |order| ensures order'[i] == order[i] {
      assert order'[..|order|][i] == order[i];
    }
    forall i | 0 < i < |order'|
      ensures FoundUnder(depends, show, order', i, n)
    {
      if i < |order| {
        assert FoundUnder(depends, show, order, i, n);
        var j :| 0 <= j < i && j < n && order[i] in SubMetas(depends, show, order[j]);
        assert order'[j] == order[j];
      } else {
        assert order'[n - 1] == order[n - 1];
      }
    }
  }

  lemma CloseExtend(depends: Oracle, show: Oracle, order: seq<string>, order': seq<string>, n: nat)
    requires DependsWellFormed(depends) && ShowWellFormed(show) && 0 < n <= |order| <= |order'|
    requires order'[..|order|] == order
    requires ClosedUpTo(depends, show, order, n - 1)
    requires Contains(order', SubMetas(depends, show, order[n - 1]))
    ensures ClosedUpTo(depends, show, order', n)
  {
    forall j | 0 <= j < n ensures Contains(order', SubMetas(depends, show, order'[j])) {
      assert order'[j] == order'[..|order|][j] == order[j];
      if j < n - 1 {
        ContainsGrow(order, order', SubMetas(depends, show, order[j]));
      }
    }
  }

  lemma ContainsGrow(order: seq<string>, order': seq<string>, found: seq<string>)
    requires |order| <= |order'| && order'[..|order|] == order && Contains(order, found)
    ensures Contains(order', found)
  {
    forall m | m in found ensures m in order' {
      var p :| 0 <= p < |order| && order[p] == m;
      assert order'[p] == order'[..|order|][p];
    }
  }

  lemma UniverseExtend(depends: Oracle, show: Oracle, order: seq<string>, order': seq<string>, n: nat)
    requires DependsWellFormed(depends) && ShowWellFormed(show) && 0 < n <= |order| <= |order'|
    requires order'[..|order|] == order
    requires forall x :: x in order ==> x in Universe(show)
    requires forall i :: |order| <= i < |order'| ==> order'[i] in SubMetas(depends, show, order[n - 1])
    ensures forall x :: x in order' ==> x in Universe(show)
  {
    forall x | x in order' ensures x in Universe(show) {
      var p :| 0 <= p < |order'| && order'[p] == x;
      if p < |order| {
        assert order'[..|order|][p] == x;
      } else {
        SubMetasInUniverse(depends, show, order[n - 1], x);
      }
    }
  }

  /**
   * The metapackages queued after `metas` were found: each in the order
   * found, unless it is in `seen` (expanded or queued before) or was just queued.
   */
  function NewNames(seen: seq<string>, metas: seq<string>): seq<string>
  {
    if metas == [] then []
    else
      var queued := NewNames(seen, metas[..|metas| - 1]);
      var m := metas[|metas| - 1];
      if m in seen || m in queued then queued else queued + [m]
  }

  lemma NoDuplicatesSnoc(o: seq<string>, m: string)
    requires NoDuplicates(o) && m !in o
    ensures NoDuplicates(o + [m])
  {
    forall i, j | 0 <= i < j < |o| + 1 ensures (o + [m])[i] != (o + [m])[j] {
      if j == |o| {
        assert o[i] in o;
      } else {
        assert (o + [m])[i] == o[i] && (o + [m])[j] == o[j];
      }
    }
  }

  /**
   * The names queued were found and are new, none is queued twice, and
   * afterwards every name found is expanded or queued.
   */
  lemma {:induction false} NewNamesSpec(seen: seq<string>, metas: seq<string>)
    ensures forall x :: x in NewNames(seen, metas) ==> x in metas && x !in seen
    ensures NoDuplicates(seen) ==> NoDuplicates(seen + NewNames(seen, metas))
    ensures Contains(seen + NewNames(seen, metas), metas)
  {
    if metas != [] {
      var init, m := metas[..|metas| - 1], metas[|metas| - 1];
      NewNamesSpec(seen, init);
      var queued := NewNames(seen, init);
      assert metas == init + [m];
      if !(m in seen || m in queued) {
        assert seen + (queued + [m]) == (seen + queued) + [m];
        if NoDuplicates(seen) {
          NoDuplicatesSnoc(seen + queued, m);
        }
      }
    }
  }

  /**
   * The loop of `main` that queues the metapackages just found: each is
   * appended, in the order found, unless it is already expanded or queued.
   */
  method EnqueueNew(done: seq<string>, queue: seq<string>, metas: seq<string>) returns (next: seq<string>)
    requires NoDuplicates(done + queue)
    ensures next == queue + NewNames(done + queue, metas)
    ensures |queue| <= |next| && next[..|queue|] == queue
    ensures NoDuplicates(done + next)
    ensures Contains(done + next, metas)
    ensures forall i :: |queue| <= i < |next| ==> next[i] in metas
  {
    next := queue;
    for k := 0 to |metas|
      invariant next == queue + NewNames(done + queue, metas[..k])
    {
      var meta := metas[k];
      assert metas[..k + 1][..k] == metas[..k];
      if meta in done || meta in next {
        continue;
      }
      next := next + [meta];
    }
    assert metas[..|metas|] == metas;
    var added := NewNames(done + queue, metas);
    NewNamesSpec(done + queue, metas);
    assert done + next == (done + queue) + added;
    forall i | |queue| <= i < |next| ensures next[i] in metas {
      assert next[i] == added[i - |queue|];
    }
  }

  /**
   * The loop of `main` that appends the entries just found, each unless an
   * entry with the same application name is already kept.
   */
  method AddNewEntries(packages: seq<Entry>, packs: seq<Entry>, ghost found: seq<Entry>) returns (kept: seq<Entry>)
    requires packages == Dedup(found)
    ensures kept == Dedup(found + packs)
  {
    kept := packages;
    assert found + packs[..0] == found;
    for k := 0 to |packs|
      invariant kept == Dedup(found + packs[..k])
    {
      var pack := packs[k];
      DedupStep(found + packs[..k], pack);
      assert found + packs[..k + 1] == (found + packs[..k]) + [pack];
      if !(exists p :: 0 <= p < |kept| && kept[p].app == pack.app) {
        kept := kept + [pack];
      }
    }
    assert packs[..|packs|] == packs;
  }

  /** What holds of the expanded names and the queue between two iterations of the walk. */
  ghost predicate WalkState(depends: Oracle, show: Oracle, done: seq<string>, queue: seq<string>)
    requires DependsWellFormed(depends) && ShowWellFormed(show)
  {
    var order := done + queue;
    |order| > 0 && order[0] == Root && NoDuplicates(order) &&
    (forall x :: x in order ==> x in Universe(show)) &&
    ClosedUpTo(depends, show, order, |done|) && ReachedFrom(depends, show, order, |done|)
  }

  /**
   * One iteration of the walk: the front of the queue, not expanded before,
   * is expanded, and the queue then holds the rest followed by the new names
   * found under it.
   */
  lemma WalkStep(depends: Oracle, show: Oracle, done: seq<string>, queue: seq<string>, next: seq<string>)
    requires DependsWellFormed(depends) && ShowWellFormed(show)
    requires WalkState(depends, show, done, queue) && queue != []
    requires |queue| - 1 <= |next| && next[..|queue| - 1] == queue[1..]
    requires NoDuplicates(done + [queue[0]] + next)
    requires Contains(done + [queue[0]] + next, SubMetas(depends, show, queue[0]))
    requires forall i :: |queue| - 1 <= i < |next| ==> next[i] in SubMetas(depends, show, queue[0])
    ensures WalkState(depends, show, done + [queue[0]], next)
    ensures queue[0] !in done && queue[0] in Universe(show)
  {
    var cur := queue[0];
    var order := done + queue;
    var done' := done + [cur];
    var order' := done' + next;
    assert order == done' + queue[1..];
    assert cur !in done by {
      assert order[|done|] == cur;
      forall j | 0 <= j < |done| ensures done[j] != cur {
        assert order[j] == done[j];
      }
    }
    assert cur in Universe(show) by {
      assert cur in order;
    }
    ReachedMonotone(depends, show, order, |done|);
    assert order'[..|order|] == order;
    assert order[|done'| - 1] == cur;
    WalkExtend(depends, show, order, order', |done'|);
  }

  /**
   * One iteration of `main`'s loop as it is written: the front of the queue
   * is expanded, and the new names found under it join the end of the queue.
   */
  lemma WalkNext(depends: Oracle, show: Oracle, done: seq<string>, queue: seq<string>)
    requires DependsWellFormed(depends) && ShowWellFormed(show)
    requires WalkState(depends, show, done, queue) && queue != []
    ensures WalkState(depends, show, done + [queue[0]],
      queue[1..] + NewNames(done + queue, SubMetas(depends, show, queue[0])))
    ensures Universe(show) - (set x | x in done + [queue[0]]) < Universe(show) - (set x | x in done)
  {
    var found := SubMetas(depends, show, queue[0]);
    var added := NewNames(done + queue, found);
    NewNamesSpec(done + queue, found);
    QueueShift(done, queue, added);
    WalkStep(depends, show, done, queue, queue[1..] + added);
    ExpandShrinks(Universe(show), done, queue[0]);
  }

  /** Expanding a name of `u` not expanded before leaves fewer of `u` to expand. */
  lemma ExpandShrinks<T>(u: set<T>, done: seq<T>, cur: T)
    requires cur in u && cur !in done
    ensures u - (set x | x in done + [cur]) < u - (set x | x in done)
  {
    assert (set x | x in done + [cur]) == (set x | x in done) + {cur};
  }

  /** Moving the front of the queue to the expanded names and appending `added` keeps the order. */
  lemma QueueShift<T>(done: seq<T>, queue: seq<T>, added: seq<T>)
    requires queue != []
    ensures done + [queue[0]] + (queue[1..] + added) == (done + queue) + added
    ensures (queue[1..] + added)[..|queue| - 1] == queue[1..]
    ensures forall i :: |queue| - 1 <= i < |queue| - 1 + |added| ==> (queue[1..] + added)[i] in added
  {
    assert done + queue == done + [queue[0]] + queue[1..];
    forall i | |queue| - 1 <= i < |queue| - 1 + |added| ensures (queue[1..] + added)[i] in added {
      assert (queue[1..] + added)[i] == added[i - (|queue| - 1)];
    }
  }

  /** The names `main` expands, in the order it expands them, once `done` are expanded and `queue` waits. */
  function Walk(depends: Oracle, show: Oracle, done: seq<string>, queue: seq<string>): seq<string>
    requires DependsWellFormed(depends) && ShowWellFormed(show)
    requires WalkState(depends, show, done, queue)
    decreases Universe(show) - set x | x in done
  {
    if queue == [] then done
    else
      WalkNext(depends, show, done, queue);
      Walk(depends, show, done + [queue[0]],
        queue[1..] + NewNames(done + queue, SubMetas(depends, show, queue[0])))
  }

  /** The state after one iteration of `main`'s loop leads on to the same walk. */
  lemma WalkAdvance(depends: Oracle, show: Oracle, done: seq<string>, queue: seq<string>, next: seq<string>)
    requires DependsWellFormed(depends) && ShowWellFormed(show)
    requires WalkState(depends, show, done, queue) && queue != []
    requires next == queue[1..] + NewNames(done + queue, SubMetas(depends, show, queue[0]))
    ensures WalkState(depends, show, done + [queue[0]], next)
    ensures Walk(depends, show, done + [queue[0]], next) == Walk(depends, show, done, queue)
    ensures Universe(show) - (set x | x in done + [queue[0]]) < Universe(show) - (set x | x in done)
  {
    WalkNext(depends, show, done, queue);
  }

  /** The walk starts with the root alone in the queue. */
  lemma WalkStart(depends: Oracle, show: Oracle)
    requires DependsWellFormed(depends) && ShowWellFormed(show)
    ensures WalkState(depends, show, [], [Root])
  {
    assert [] + [Root] == [Root];
  }

  /** The metapackages `main` expands, in order, from `hamradio-all`. */
  function CatalogWalk(depends: Oracle, show: Oracle): seq<string>
    requires DependsWellFormed(depends) && ShowWellFormed(show)
  {
    WalkStart(depends, show);
    Walk(depends, show, [], [Root])
  }

  /** The walk from any state of the loop ends in a complete walk. */
  lemma {:induction false} WalkComplete(depends: Oracle, show: Oracle, done: seq<string>, queue: seq<string>)
    requires DependsWellFormed(depends) && ShowWellFormed(show)
    requires WalkState(depends, show, done, queue)
    ensures CompleteWalk(depends, show, Walk(depends, show, done, queue))
    decreases Universe(show) - set x | x in done
  {
    if queue == [] {
      WalkDone(depends, show, done);
    } else {
      WalkNext(depends, show, done, queue);
      WalkComplete(depends, show, done + [queue[0]],
        queue[1..] + NewNames(done + queue, SubMetas(depends, show, queue[0])));
    }
  }

  /** When the queue is empty the walk is complete. */
  lemma WalkDone(depends: Oracle, show: Oracle, done: seq<string>)
    requires DependsWellFormed(depends) && ShowWellFormed(show)
    requires WalkState(depends, show, done, [])
    ensures CompleteWalk(depends, show, done)
  {
    assert done + [] == done;
  }

  /** The sorted, deduplicated list has unique names, is sorted, and holds the deduplicated entries. */
  lemma SortedCatalog(found: seq<Entry>)
    ensures UniqueApps(SortByKey(Dedup(found))) && SortedByKey(SortByKey(Dedup(found)))
    ensures multiset(SortByKey(Dedup(found))) == multiset(Dedup(found))
  {
    DedupSpec(found);
    SortByKeySpec(Dedup(found));
    SortKeepsUniqueApps(Dedup(found));
  }

  /**
   * One iteration of `main`'s loop: the metapackage at the front of the
   * queue is expanded, the new metapackages found under it are queued, and
   * the applications found under it that are new are added to the catalog.
   */
  method ExpandFront(depends: Oracle, show: Oracle, done: seq<string>, queue: seq<string>, packages: seq<Entry>)
    returns (done': seq<string>, queue': seq<string>, packages': seq<Entry>)
    requires DependsWellFormed(depends) && ShowWellFormed(show)
    requires NoDuplicates(done + queue) && queue != []
    requires packages == Dedup(Discovered(depends, show, done))
    ensures done' == done + [queue[0]]
    ensures queue' == queue[1..] + NewNames(done + queue, SubMetas(depends, show, queue[0]))
    ensures packages' == Dedup(Discovered(depends, show, done'))
  {
    var cur := queue[0];
    done' := done + [cur];
    assert done' + queue[1..] == done + queue;
    PackTreeNonEmpty(depends, cur);
    var packs, metas := ProcessMeta(depends, show, cur);
    queue' := EnqueueNew(done', queue[1..], metas);
    DiscoveredStep(depends, show, done, cur);
    packages' := AddNewEntries(packages, packs, Discovered(depends, show, done));
  }

  /**
   * `main` up to the sort: the walk from `hamradio-all`, the deduplication of
   * the entries found and the sort by lower-cased application name.
   */
  method BuildCatalog(depends: Oracle, show: Oracle) returns (packages: seq<Entry>, ghost expanded: seq<string>)
    requires DependsWellFormed(depends) && ShowWellFormed(show)
    ensures expanded == CatalogWalk(depends, show)
    ensures CompleteWalk(depends, show, expanded)
    ensures packages == SortByKey(Dedup(Discovered(depends, show, expanded)))
    ensures UniqueApps(packages) && SortedByKey(packages)
    ensures multiset(packages) == multiset(Dedup(Discovered(depends, show, expanded)))
  {
    packages := [];
    var done: seq<string> := [];
    var queue := [Root];
    WalkStart(depends, show);
    while queue != []
      invariant WalkState(depends, show, done, queue)
      invariant Walk(depends, show, done, queue) == CatalogWalk(depends, show)
      invariant packages == Dedup(Discovered(depends, show, done))
      decreases Universe(show) - set x | x in done
    {
      ghost var before, waiting := done, queue;
      done, queue, packages := ExpandFront(depends, show, done, queue, packages);
      WalkAdvance(depends, show, before, waiting, queue);
    }
    WalkDone(depends, show, done);
    expanded := done;
    SortedCatalog(Discovered(depends, show, done));
    packages := SortByKey(packages);
  }
}
