/**
 Geosite categories: rule files that include one another, in any shape, cycles too. Loading terminates, and
 what it leaves in each category is its built-in rules and its own file's rules, whatever the order of the
 directory and however often a file was parsed again through an include.
 */
module Geosite {
  import opened Text
  import opened Wire

  datatype Category = Category(exact: set<string>, suffixes: set<string>, keywords: set<string>)
  datatype Line = Skip | Include(name: string) | Rule(category: Category)

  const EMPTY := Category({}, {}, {})

  function Merge(a: Category, b: Category): Category
  {
    Category(a.exact + b.exact, a.suffixes + b.suffixes, a.keywords + b.keywords)
  }

  // ---- Lines ----

  predicate Space(c: char)
  {
    c in " \t\n\r"
  }

  function TrimStart(s: string): string
  {
    if |s| > 0 && Space(s[0]) then TrimStart(s[1..]) else s
  }

  function TrimEnd(s: string): string
  {
    if |s| > 0 && Space(s[|s| - 1]) then TrimEnd(s[..|s| - 1]) else s
  }

  predicate Starts(s: string, prefix: string)
  {
    prefix <= s
  }

  function ParseLine(raw: string): Line
  {
    var s := TrimEnd(TrimStart(raw));
    if s == "" || Starts(s, "#") then Skip
    else if Starts(s, "include:") then Include(s[8..])
    else if Starts(s, "+.") then Rule(EMPTY.(suffixes := {LowerText(s[2..])}))
    else if Starts(s, "full:") then Rule(EMPTY.(exact := {LowerText(s[5..])}))
    else if Starts(s, "keyword:") then Rule(EMPTY.(keywords := {LowerText(s[8..])}))
    else if Starts(s, "regexp:") then Skip
    else if Starts(s, "domain:") then Rule(EMPTY.(suffixes := {LowerText(s[7..])}))
    else if Starts(s, "+") then Skip
    else Rule(EMPTY.(exact := {LowerText(s)}))
  }

  /** What the lines of a file contribute to its own category. */
  function Rules(lines: seq<string>): Category
  {
    if |lines| == 0 then EMPTY
    else
      var before := Rules(lines[..|lines| - 1]);
      match ParseLine(lines[|lines| - 1])
      case Rule(c) => Merge(before, c)
      case _ => before
  }

  predicate Includes(lines: seq<string>, name: string)
  {
    exists line <- lines :: ParseLine(line) == Include(name)
  }

  // ---- What is loaded ----

  type Files = map<string, seq<string>>

  /** Every readable file that a member includes is a member, or among the exceptions. */
  ghost predicate ClosedUpTo(files: Files, loaded: set<string>, except: set<string>)
  {
    loaded <= files.Keys &&
    forall x, y | x in loaded && y in files && Includes(files[x], y) :: y in loaded || y in except
  }

  function Grow(files: Files, s: set<string>): (r: set<string>)
    requires s <= files.Keys
    ensures s <= r <= files.Keys
  {
    s + set y | y in files && exists x <- s :: Includes(files[x], y)
  }

  /** All files reached through includes. */
  ghost function Reach(files: Files, s: set<string>): (r: set<string>)
    requires s <= files.Keys
    ensures s <= r <= files.Keys
    decreases files.Keys - s
  {
    var g := Grow(files, s);
    if g == s then s else Reach(files, g)
  }

  lemma {:induction false} ReachIsClosed(files: Files, s: set<string>)
    requires s <= files.Keys
    ensures ClosedUpTo(files, Reach(files, s), {})
    decreases files.Keys - s
  {
    var g := Grow(files, s);
    if g != s {
      ReachIsClosed(files, g);
    } else {
      forall x, y | x in s && y in files && Includes(files[x], y)
        ensures y in s
      {
        assert y in g;
      }
    }
  }

  lemma {:induction false} ReachIsLeast(files: Files, s: set<string>, t: set<string>)
    requires s <= files.Keys && s <= t && ClosedUpTo(files, t, {})
    ensures Reach(files, s) <= t
    decreases files.Keys - s
  {
    var g := Grow(files, s);
    if g != s {
      ReachIsLeast(files, g, t);
    }
  }

  type Categories = map<string, Category>

  function Get(c: Categories, name: string): Category
  {
    if name in c then c[name] else EMPTY
  }

  /** The store after loading the given files over what was there. */
  ghost function Loaded(base: Categories, files: Files, names: set<string>): Categories
    requires names <= files.Keys
  {
    map n | n in base.Keys + names :: if n in names then Merge(Get(base, n), Rules(files[n])) else base[n]
  }

  lemma MergeTwice(a: Category, b: Category)
    ensures Merge(Merge(a, b), b) == Merge(a, b)
  {
  }

  class GeositeStore {
    var categories: Categories
    const files: Files

    constructor (base: Categories, files: Files)
      ensures categories == base && this.files == files
    {
      categories := base;
      this.files := files;
    }

    /**
     Parses one file into its category, following includes but never a file that is already being parsed.
     `loaded` are the files parsed so far; `bound` is any closed set that the walk cannot leave.
     */
    method ParseCategorySource(
      name: string, seen: set<string>, ghost base: Categories, ghost loaded: set<string>, ghost bound: set<string>)
      returns (ghost loaded': set<string>)
      requires name in files && name in bound && ClosedUpTo(files, bound, {})
      requires loaded <= bound && ClosedUpTo(files, loaded, seen)
      requires categories == Loaded(base, files, loaded)
      modifies this`categories
      ensures loaded <= loaded' <= bound && ClosedUpTo(files, loaded', seen) && (name in loaded' || name in seen)
      ensures categories == Loaded(base, files, loaded')
      decreases files.Keys - seen
    {
      hide ParseLine, Loaded, Rules, Merge;
      loaded' := loaded;
      if name in seen {
        return;
      }
      var seen' := seen + {name};
      var cat := if name in categories then categories[name] else EMPTY;
      ghost var start := cat;
      var lines := files[name];
      NoRules(start, lines);
      for i := 0 to |lines|
        invariant cat == Merge(start, Rules(lines[..i]))
        invariant loaded <= loaded' <= bound && ClosedUpTo(files, loaded', seen')
        invariant categories == Loaded(base, files, loaded')
        invariant forall j, y | 0 <= j < i && y in files && ParseLine(lines[j]) == Include(y) ::
          y in loaded' || y in seen'
      {
        OneMoreRule(start, lines, i);
        match ParseLine(lines[i])
        case Skip =>
        case Include(inc) =>
          if inc in files {
            assert Includes(files[name], inc);
            loaded' := ParseCategorySource(inc, seen', base, loaded', bound);
          }
        case Rule(c) =>
          cat := Merge(cat, c);
      }
      assert lines[..|lines|] == lines;
      ghost var before := loaded';
      loaded' := loaded' + {name};
      categories := categories[name := cat];
      FinishedIs(base, files, before, loaded, name, start, cat);
      FinishedCloses(files, before, seen, name);
    }

    /** Loads every readable file of the listing. */
    method LoadDir(listing: seq<string>)
      modifies this`categories
      ensures categories == Loaded(old(categories), files, Reach(files, Listed(files, listing)))
    {
      hide Reach, Loaded, ClosedUpTo;
      ghost var base := categories;
      ghost var bound := Reach(files, Listed(files, listing));
      ghost var loaded: set<string> := {};
      ReachIsClosed(files, Listed(files, listing));
      NothingLoaded(base, files);
      for i := 0 to |listing|
        invariant loaded <= bound && ClosedUpTo(files, loaded, {}) && categories == Loaded(base, files, loaded)
        invariant forall j | 0 <= j < i && listing[j] in files :: listing[j] in loaded
      {
        if listing[i] in files {
          loaded := ParseCategorySource(listing[i], {}, base, loaded, bound);
        }
      }
      ReachIsLeast(files, Listed(files, listing), loaded);
      assert loaded == bound;
    }
  }

  lemma NoRules(start: Category, lines: seq<string>)
    ensures Merge(start, Rules(lines[..0])) == start
  {
  }

  lemma OneMoreRule(start: Category, lines: seq<string>, i: nat)
    requires i < |lines|
    ensures Merge(start, Rules(lines[..i + 1])) ==
            match ParseLine(lines[i])
            case Rule(c) => Merge(Merge(start, Rules(lines[..i])), c)
            case _ => Merge(start, Rules(lines[..i]))
  {
    hide ParseLine;
    assert lines[..i + 1][..i] == lines[..i];
  }

  /** The readable files among the listed names. */
  function Listed(files: Files, listing: seq<string>): (r: set<string>)
    ensures r <= files.Keys
  {
    set n | n in listing && n in files
  }

  lemma NothingLoaded(base: Categories, files: Files)
    ensures base == Loaded(base, files, {}) && ClosedUpTo(files, {}, {})
  {
  }

  /** Writing the finished category is loading its file, whether or not it had been loaded before. */
  lemma FinishedIs(
    base: Categories, files: Files, before: set<string>, loaded: set<string>, name: string, start: Category,
    cat: Category)
    requires before <= files.Keys && loaded <= before && name in files
    requires start == Get(Loaded(base, files, loaded), name) && cat == Merge(start, Rules(files[name]))
    ensures Loaded(base, files, before)[name := cat] == Loaded(base, files, before + {name})
  {
    hide Rules, Merge;
    MergeTwice(Get(base, name), Rules(files[name]));
    var left, right := Loaded(base, files, before)[name := cat], Loaded(base, files, before + {name});
    assert cat == Merge(Get(base, name), Rules(files[name]));
    assert left.Keys == right.Keys;
    assert forall n <- left.Keys :: left[n] == right[n];
  }

  lemma FinishedCloses(files: Files, before: set<string>, seen: set<string>, name: string)
    requires name in files && ClosedUpTo(files, before, seen + {name})
    requires forall j, y | 0 <= j < |files[name]| && y in files && ParseLine(files[name][j]) == Include(y) ::
      y in before || y in seen + {name}
    ensures ClosedUpTo(files, before + {name}, seen)
  {
    hide ParseLine;
    forall x, y | x in before + {name} && y in files && Includes(files[x], y)
      ensures y in before + {name} || y in seen
    {
      if x !in before {
        var line :| line in files[name] && ParseLine(line) == Include(y);
        var j :| 0 <= j < |files[name]| && files[name][j] == line;
      }
    }
  }

  /** Two listings of the same readable files load the same store. */
  lemma OrderIrrelevant(base: Categories, files: Files, a: seq<string>, b: seq<string>)
    requires forall n <- files :: n in a <==> n in b
    ensures Loaded(base, files, Reach(files, Listed(files, a))) == Loaded(base, files, Reach(files, Listed(files, b)))
  {
    hide Reach, Loaded;
    assert Listed(files, a) == Listed(files, b);
  }

  // ---- Matching ----

  predicate Ends(s: string, suffix: string)
  {
    |suffix| <= |s| && s[|s| - |suffix|..] == suffix
  }

  predicate OccursAt(s: string, part: string, i: nat)
  {
    i + |part| <= |s| && s[i..i + |part|] == part
  }

  predicate Contains(s: string, part: string)
  {
    exists i | 0 <= i <= |s| :: OccursAt(s, part, i)
  }

  predicate Matches(c: Category, host: string)
  {
    var h := LowerText(TrimLast(host, '.'));
    || h in c.exact
    || (exists s <- c.suffixes :: h == s || Ends(h, "." + s))
    || (exists k <- c.keywords :: Contains(h, k))
  }

  /** A loaded category matches a host exactly when its built-in rules or its own file's rules do. */
  lemma LoadedMatches(base: Categories, files: Files, names: set<string>, n: string, host: string)
    requires names <= files.Keys && n in Loaded(base, files, names)
    ensures Matches(Loaded(base, files, names)[n], host) <==>
      Matches(Get(base, n), host) || (n in names && Matches(Rules(files[n]), host))
  {
    hide Ends, Contains, LowerText, TrimLast, Rules;
  }
}
