/** tools/cleanup-mojibake.mjs: a one-shot maintenance run that rewrites,
    in place, every eligible text file under `src` and `tools`, applying the
    same nine replacement pairs as `cleanText` but WITHOUT collapsing
    whitespace or trimming, and reports scanned / changed / skipped counts.

    The file system is a tree value; each file carries the results the
    system calls would give (its size, its decoded content, whether it can be
    stat'ed and read, whether it can be written). A run returns the new tree
    and the counters. */
module MojibakeTool {
  import opened Wrappers
  import opened Strings
  import TextRepair

  type Rule = TextRepair.Rule

  /** A directory entry. `Other` is anything `Dirent` reports as neither a
      directory nor a regular file (a symbolic link, a socket, ...). */
  datatype Node =
    | File(name: string, size: nat, content: string, readable: bool, writable: bool)
    | Dir(name: string, children: seq<Node>, listable: bool)
    | Other(name: string)

  datatype Counters = Counters(scanned: nat, changed: nat, skipped: nat)

  const Zero: Counters := Counters(0, 0, 0)

  /** `TARGET_DIRS` */
  const TargetDirs: seq<string> := ["src", "tools"]
  /** `EXT_OK` */
  const ExtOk: set<string> := {".ts", ".tsx", ".js", ".jsx", ".css", ".md", ".json", ".mjs", ".cjs", ".txt"}
  /** `SKIP_DIR` */
  const SkipDir: set<string> := {"node_modules", ".next", ".git"}
  /** Files larger than this many bytes are skipped unread. */
  const MaxSize: nat := 2 * 1024 * 1024

  /** `patterns`: the tool's own copy of the replacement table. */
  const Patterns: seq<Rule> := [
    TextRepair.Rule("\U{00E2}\U{20AC}\U{2122}", "'"),
    TextRepair.Rule("\U{00E2}\U{20AC}\U{02DC}", "'"),
    TextRepair.Rule("\U{00E2}\U{20AC}\U{0153}", "\""),
    TextRepair.Rule("\U{00E2}\U{20AC}\U{009D}", "\""),
    TextRepair.Rule("\U{00E2}\U{20AC}\U{201C}", "-"),
    TextRepair.Rule("\U{00E2}\U{20AC}\U{201D}", "-"),
    TextRepair.Rule("\U{00E2}\U{20AC}\U{00A2}", "-"),
    TextRepair.Rule("\U{00C2}", ""),
    TextRepair.Rule("\U{00A0}", " ")
  ]

  /** The three marker texts of the quick filter. */
  const EuroPrefix: string := "\U{00E2}\U{20AC}"

  /** `for (const [from, to] of patterns) after = after.split(from).join(to)` */
  function Rewrite(s: string): (r: string)
    ensures TextRepair.Artifact !in r && TextRepair.Nbsp !in r
  {
    PatternsMatchCleanText();
    TextRepair.ArtifactAndNbspRemoved(s);
    TextRepair.ApplyRules(s, Patterns)
  }

  /** The quick filter: does the text contain any marker at all? */
  predicate MayNeedRewrite(s: string) {
    Contains(s, EuroPrefix) || Contains(s, [TextRepair.Artifact]) || Contains(s, [TextRepair.Nbsp])
  }

  /** Index of the last '.' in `name`, if any. */
  function LastDot(name: string): (r: Option<nat>)
    ensures r.Some? ==> r.value < |name| && name[r.value] == '.'
    ensures r.Some? ==> forall j :: r.value < j < |name| ==> name[j] != '.'
    ensures r.None? ==> forall j :: 0 <= j < |name| ==> name[j] != '.'
    decreases |name|
  {
    if |name| == 0 then None
    else if name[|name| - 1] == '.' then Some(|name| - 1)
    else LastDot(name[..|name| - 1])
  }

  /** Node's `path.extname` of an entry name (no '/'): from the last '.' to
      the end, or "" when there is no '.', when the only '.' leads the name,
      or for "..". */
  function ExtName(name: string): (r: string)
    ensures r != [] ==> |r| < |name| && r == name[|name| - |r|..] && r[0] == '.' && '.' !in r[1..]
    ensures r == [] <==> '.' !in name || (name[0] == '.' && '.' !in name[1..]) || name == ".."
  {
    match LastDot(name)
    case None => ""
    case Some(d) =>
      assert name[0] == '.' && '.' !in name[1..] ==> d == 0 by {
        if d != 0 && name[0] == '.' {
          assert name[1..][d - 1] == '.';
        }
      }
      if d == 0 || name == ".." then "" else name[d..]
  }

  /** `shouldProcess`: is the lower-cased extension in `EXT_OK`? */
  predicate ShouldProcess(name: string) {
    Lower(ExtName(name)) in ExtOk
  }

  datatype Processed = Processed(file: Node, counts: Counters)

  /** `processFile`, for a file the walk found eligible. `scanned` goes up by
      one. A failed stat/read, an oversized file or a failed write adds one
      to `skipped`; a successful write adds one to `changed`; the written
      text is exactly the rewritten content, and a file is written only when
      the rewrite changed it. The quick filter never changes the outcome. */
  function ProcessFile(f: Node, c: Counters): (p: Processed)
    requires f.File?
    ensures p.counts.scanned == c.scanned + 1
    ensures p.counts.changed >= c.changed && p.counts.skipped >= c.skipped
    ensures (p.counts.changed - c.changed) + (p.counts.skipped - c.skipped) <= 1
    ensures p.file.File? && p.file.name == f.name && p.file.size == f.size
    ensures p.file.readable == f.readable && p.file.writable == f.writable
    ensures !f.readable || f.size > MaxSize ==> p.file == f && p.counts.skipped == c.skipped + 1
    ensures p.file.content ==
      (if f.readable && f.size <= MaxSize && f.writable then Rewrite(f.content) else f.content)
    ensures p.counts.changed == c.changed + 1 <==> p.file.content != f.content
    ensures p.counts.skipped == c.skipped + 1 <==>
      !f.readable || f.size > MaxSize || (!f.writable && Rewrite(f.content) != f.content)
  {
    var c1 := c.(scanned := c.scanned + 1);
    if !f.readable then Processed(f, c1.(skipped := c1.skipped + 1))
    else if f.size > MaxSize then Processed(f, c1.(skipped := c1.skipped + 1))
    else if !MayNeedRewrite(f.content) then
      QuickFilterSound(f.content);
      Processed(f, c1)
    else
      var after := Rewrite(f.content);
      if after == f.content then Processed(f, c1)
      else if !f.writable then Processed(f, c1.(skipped := c1.skipped + 1))
      else Processed(f.(content := after), c1.(changed := c1.changed + 1))
  }

  /** The result of walking a list of directory entries. */
  datatype Walk = Walk(nodes: seq<Node>, counts: Counters, crashed: bool)

  function Prepend(n: Node, w: Walk): Walk {
    Walk([n] + w.nodes, w.counts, w.crashed)
  }

  // ---------------------------------------------------------------------
  // Reference definitions the walk is measured against

  /** What a walk may do to one entry, ignoring what happens inside a
      directory: an excluded directory and an `Other` entry are untouched; a
      file keeps its name, size and flags, and its content is either kept or
      replaced by its rewrite; a file that is ineligible, too large,
      unreadable or unwritable keeps its content. */
  predicate EntryStep(o: Node, n: Node) {
    match o
    case Dir(name, _, listable) =>
      if name in SkipDir then n == o else n.Dir? && n.name == name && n.listable == listable
    case File(name, size, content, readable, writable) =>
      && n.File? && n.name == name && n.size == size
      && n.readable == readable && n.writable == writable
      && (n.content == content || n.content == Rewrite(content))
      && (!ShouldProcess(name) || size > MaxSize || !readable || !writable ==> n.content == content)
    case Other(_) => n == o
  }

  /** `after` is a possible result of walking `before`, at every depth. */
  predicate WalkedFrom(before: seq<Node>, after: seq<Node>)
    decreases before
  {
    && |before| == |after|
    && (before != [] ==>
      && EntryStep(before[0], after[0])
      && (before[0].Dir? && before[0].name !in SkipDir ==>
            WalkedFrom(before[0].children, after[0].children))
      && WalkedFrom(before[1..], after[1..]))
  }

  /** Eligible files reachable without entering an excluded directory. */
  function Eligible(entries: seq<Node>): nat
    decreases entries
  {
    if entries == [] then 0
    else
      var here := match entries[0]
        case Dir(name, children, _) => if name in SkipDir then 0 else Eligible(children)
        case File(name, _, _, _, _) => if ShouldProcess(name) then 1 else 0
        case Other(_) => 0;
      here + Eligible(entries[1..])
  }

  /** Every directory the walk would open can be listed. */
  predicate AllListable(entries: seq<Node>)
    decreases entries
  {
    entries != [] ==>
      && (entries[0].Dir? && entries[0].name !in SkipDir ==>
            entries[0].listable && AllListable(entries[0].children))
      && AllListable(entries[1..])
  }

  /** Number of files whose content differs between two trees of the same
      shape. */
  function Rewritten(before: seq<Node>, after: seq<Node>): nat
    decreases before
  {
    if before == [] || after == [] then 0
    else
      var here :=
        if before[0].File? && after[0].File? && before[0].content != after[0].content then 1
        else if before[0].Dir? && after[0].Dir? then Rewritten(before[0].children, after[0].children)
        else 0;
      here + Rewritten(before[1..], after[1..])
  }

  /** The tree a walk that does not crash leaves behind: every eligible
      file that can be read, is at most `MaxSize` bytes and can be written
      holds its rewrite; every other entry, and everything inside an
      excluded directory, is as it was. */
  function Expected(entries: seq<Node>): seq<Node>
    decreases entries
  {
    if entries == [] then []
    else
      var here := match entries[0]
        case Dir(name, children, listable) =>
          if name in SkipDir then entries[0] else Dir(name, Expected(children), listable)
        case File(name, size, content, readable, writable) =>
          if ShouldProcess(name) && readable && size <= MaxSize && writable
          then entries[0].(content := Rewrite(content)) else entries[0]
        case Other(_) => entries[0];
      [here] + Expected(entries[1..])
  }

  /** Eligible files a walk counts as skipped: those that cannot be read,
      are larger than `MaxSize`, or need a rewrite that cannot be
      written. */
  function Skipped(entries: seq<Node>): nat
    decreases entries
  {
    if entries == [] then 0
    else
      var here := match entries[0]
        case Dir(name, children, _) => if name in SkipDir then 0 else Skipped(children)
        case File(name, size, content, readable, writable) =>
          if ShouldProcess(name) && (!readable || size > MaxSize || (!writable && Rewrite(content) != content))
          then 1 else 0
        case Other(_) => 0;
      here + Skipped(entries[1..])
  }

  /** Counter growth allowed by a walk: each scanned file adds to at most
      one of `changed` and `skipped`. */
  predicate Grows(c: Counters, d: Counters) {
    && d.scanned >= c.scanned && d.changed >= c.changed && d.skipped >= c.skipped
    && (d.changed - c.changed) + (d.skipped - c.skipped) <= d.scanned - c.scanned
  }

  // ---------------------------------------------------------------------
  // The walk

  /** `walk(dir)` over the entries of one directory, in listing order. An
      excluded directory is never opened; a directory that cannot be listed
      makes `readdirSync` throw, which nothing catches, so the run stops
      there (`crashed`). */
  function WalkEntries(entries: seq<Node>, c: Counters): (w: Walk)
    ensures WalkedFrom(entries, w.nodes)
    ensures Grows(c, w.counts)
    ensures w.counts.changed == c.changed + Rewritten(entries, w.nodes)
    ensures w.crashed <==> !AllListable(entries)
    ensures !w.crashed ==> w.counts.scanned == c.scanned + Eligible(entries)
    decreases entries
  {
    if entries == [] then Walk([], c, false)
    else
      var e := entries[0];
      match e
      case Dir(name, children, listable) =>
        if name in SkipDir then
          RewrittenRefl(children);
          var rest := WalkEntries(entries[1..], c);
          Prepend(e, rest)
        else if !listable then
          WalkedFromRefl(entries);
          RewrittenRefl(entries);
          Walk(entries, c, true)
        else
          var sub := WalkEntries(children, c);
          var d := Dir(name, sub.nodes, listable);
          if sub.crashed then
            WalkedFromRefl(entries[1..]);
            RewrittenRefl(entries[1..]);
            assert ([d] + entries[1..])[1..] == entries[1..];
            Walk([d] + entries[1..], sub.counts, true)
          else
            var rest := WalkEntries(entries[1..], sub.counts);
            Prepend(d, rest)
      case File(name, _, _, _, _) =>
        if ShouldProcess(name) then
          var p := ProcessFile(e, c);
          var rest := WalkEntries(entries[1..], p.counts);
          Prepend(p.file, rest)
        else
          var rest := WalkEntries(entries[1..], c);
          Prepend(e, rest)
      case Other(_) =>
        var rest := WalkEntries(entries[1..], c);
        Prepend(e, rest)
  }

  /** A walk that does not crash rewrites exactly the files `Expected`
      rewrites and counts exactly the `Skipped` files as skipped. */
  lemma {:induction false} WalkMatchesExpected(entries: seq<Node>, c: Counters)
    ensures var w := WalkEntries(entries, c);
      !w.crashed ==> w.nodes == Expected(entries) && w.counts.skipped == c.skipped + Skipped(entries)
    decreases entries
  {
    if entries != [] {
      var e := entries[0];
      match e
      case Dir(name, children, listable) =>
        if name in SkipDir {
          WalkMatchesExpected(entries[1..], c);
        } else if listable {
          WalkMatchesExpected(children, c);
          var sub := WalkEntries(children, c);
          if !sub.crashed {
            WalkMatchesExpected(entries[1..], sub.counts);
          }
        }
      case File(name, _, _, _, _) =>
        if ShouldProcess(name) {
          WalkMatchesExpected(entries[1..], ProcessFile(e, c).counts);
        } else {
          WalkMatchesExpected(entries[1..], c);
        }
      case Other(_) =>
        WalkMatchesExpected(entries[1..], c);
    }
  }

  /** Index of the first root entry with the given name. */
  function Find(root: seq<Node>, name: string): (r: Option<nat>)
    ensures r.Some? ==> r.value < |root| && root[r.value].name == name
    ensures r.Some? ==> forall j :: 0 <= j < r.value ==> root[j].name != name
    ensures r.None? ==> forall j :: 0 <= j < |root| ==> root[j].name != name
  {
    if root == [] then None
    else if root[0].name == name then Some(0)
    else match Find(root[1..], name)
      case None => None
      case Some(i) => Some(i + 1)
  }

  /** No name occurs twice. */
  predicate Distinct(names: seq<string>) {
    forall i, j :: 0 <= i < j < |names| ==> names[i] != names[j]
  }

  /** What the run may do to one root entry: keep it, or, for a listable
      target directory, replace its children by a possible walk of them. */
  predicate TopStep(o: Node, n: Node, targets: seq<string>) {
    || n == o
    || (&& o.Dir? && o.listable && o.name in targets
        && n.Dir? && n.name == o.name && n.listable
        && WalkedFrom(o.children, n.children))
  }

  /** Files the run would scan: the eligible files of every target that
      exists as a directory. */
  function TargetScan(root: seq<Node>, targets: seq<string>): nat
    decreases |targets|
  {
    if targets == [] then 0
    else
      var here := match Find(root, targets[0])
        case None => 0
        case Some(i) => if root[i].Dir? then Eligible(root[i].children) else 0;
      here + TargetScan(root, targets[1..])
  }

  /** Every target is absent, or is a directory whose walk cannot fail. */
  predicate TargetsOk(root: seq<Node>, targets: seq<string>)
    decreases |targets|
  {
    targets != [] ==>
      && (match Find(root, targets[0])
          case None => true
          case Some(i) => root[i].Dir? && root[i].listable && AllListable(root[i].children))
      && TargetsOk(root, targets[1..])
  }

  /** Files the run would count as skipped: the `Skipped` files of every
      target that exists as a directory. */
  function TargetSkipped(root: seq<Node>, targets: seq<string>): nat
    decreases |targets|
  {
    if targets == [] then 0
    else
      var here := match Find(root, targets[0])
        case None => 0
        case Some(i) => if root[i].Dir? then Skipped(root[i].children) else 0;
      here + TargetSkipped(root, targets[1..])
  }

  /** Root entry `j` is the directory the run walks for one of the targets:
      the first entry with its name, and a directory. */
  predicate IsTargetDir(root: seq<Node>, j: int, targets: seq<string>) {
    0 <= j < |root| && root[j].Dir? && root[j].name in targets && Find(root, root[j].name) == Some(j)
  }

  /** Root entry `j` after a run that does not crash: a walked target holds
      the `Expected` tree, every other entry is as it was. */
  function ExpectedAt(root: seq<Node>, j: int, targets: seq<string>): Node
    requires 0 <= j < |root|
  {
    if IsTargetDir(root, j, targets) then root[j].(children := Expected(root[j].children)) else root[j]
  }

  /** The top-level loop: for each target name, an absent entry is skipped
      (`existsSync`); a listable directory is walked; anything else makes
      `readdirSync` throw and ends the run. */
  function RunTargets(root: seq<Node>, targets: seq<string>, c: Counters): (w: Walk)
    requires Distinct(targets)
    ensures |w.nodes| == |root|
    ensures forall j :: 0 <= j < |root| ==> TopStep(root[j], w.nodes[j], targets)
    ensures Grows(c, w.counts)
    ensures w.counts.changed == c.changed + Rewritten(root, w.nodes)
    ensures w.crashed <==> !TargetsOk(root, targets)
    ensures !w.crashed ==> w.counts.scanned == c.scanned + TargetScan(root, targets)
    decreases |targets|
  {
    if targets == [] then
      RewrittenRefl(root);
      Walk(root, c, false)
    else
      match Find(root, targets[0])
      case None =>
        RunTargets(root, targets[1..], c)
      case Some(i) =>
        var e := root[i];
        if e.Dir? && e.listable then
          var sub := WalkEntries(e.children, c);
          var d := Dir(e.name, sub.nodes, true);
          var root' := root[i := d];
          RewrittenAt(root, i, d);
          assert TopStep(root[i], d, targets);
          if sub.crashed then
            Walk(root', sub.counts, true)
          else
            assert e.name !in targets[1..];
            var w := RunTargets(root', targets[1..], sub.counts);
            TargetsUpdate(root, i, d, targets[1..]);
            RewrittenTriangle(root, root', w.nodes);
            w
        else
          RewrittenRefl(root);
          Walk(root, c, true)
  }

  /** The whole run over the project root's entries, from zero counters. */
  function Run(root: seq<Node>): (w: Walk)
    ensures |w.nodes| == |root|
    ensures forall j :: 0 <= j < |root| ==> TopStep(root[j], w.nodes[j], TargetDirs)
    ensures WalkedFrom(root, w.nodes)
    ensures w.counts.changed + w.counts.skipped <= w.counts.scanned
    ensures w.counts.changed == Rewritten(root, w.nodes)
    ensures w.crashed <==> !TargetsOk(root, TargetDirs)
    ensures !w.crashed ==> w.counts.scanned == TargetScan(root, TargetDirs)
  {
    var w := RunTargets(root, TargetDirs, Zero);
    TopStepsWalked(root, w.nodes, TargetDirs);
    w
  }

  // ---------------------------------------------------------------------
  // Lemmas

  /** The tool's table is the same nine pairs, in the same order, as the
      replacement chain of `cleanText`. */
  lemma PatternsMatchCleanText()
    ensures Patterns == TextRepair.Rules
    ensures TextRepair.ValidRules(Patterns)
  {
    TextRepair.RuleTableShape();
  }

  lemma ContainsLonger(s: string, p: string, q: string)
    requires StartsWith(p, q)
    requires Contains(s, p)
    ensures Contains(s, q)
  {
    ContainsAt(s, p);
    var i :| OccursAt(s, p, i);
    assert s[i..i + |q|] == s[i..i + |p|][..|q|];
    assert OccursAt(s, q, i);
    ContainsAt(s, q);
  }

  /** The quick filter is sound: every pattern contains "â€", "Â" or NBSP,
      so a text the filter lets through unrewritten is one the rewrite would
      not have changed. */
  lemma QuickFilterSound(s: string)
    requires !MayNeedRewrite(s)
    ensures Rewrite(s) == s
  {
    PatternsMatchCleanText();
    forall k | 0 <= k < |Patterns|
      ensures !Contains(s, Patterns[k].pattern)
    {
      var p := Patterns[k].pattern;
      if k < 7 {
        assert StartsWith(p, EuroPrefix);
        if Contains(s, p) {
          ContainsLonger(s, p, EuroPrefix);
        }
      }
    }
    TextRepair.ApplyRulesAbsent(s, Patterns);
  }

  lemma AsciiLacks(s: string, m: string)
    requires AllAscii(s) && |m| > 0 && !IsAscii(m[0])
    ensures !Contains(s, m)
  {
    ContainsAt(s, m);
  }

  /** A pure-ASCII file is never rewritten. */
  lemma AsciiTextUntouched(s: string)
    requires AllAscii(s)
    ensures !MayNeedRewrite(s)
    ensures Rewrite(s) == s
  {
    AsciiLacks(s, EuroPrefix);
    AsciiLacks(s, [TextRepair.Artifact]);
    AsciiLacks(s, [TextRepair.Nbsp]);
    QuickFilterSound(s);
  }

  /** Every character any pattern is made of. */
  const PatternChars: set<char> := {'\U{00E2}', '\U{20AC}', '\U{2122}', '\U{02DC}', '\U{0153}',
                                    '\U{009D}', '\U{201C}', '\U{201D}', '\U{00A2}', '\U{00C2}', '\U{00A0}'}

  lemma PatternsOverChars()
    ensures forall k, j :: 0 <= k < |Patterns| && 0 <= j < |Patterns[k].pattern| ==>
      Patterns[k].pattern[j] in PatternChars
    ensures forall k :: 0 <= k < |Patterns| ==>
      Patterns[k].replacement in ["'", "\"", "-", "", " "]
  {
  }

  lemma SpaceNotPatternChar(c: char)
    requires IsJsSpace(c) && c != TextRepair.Nbsp
    ensures c !in PatternChars
  {
  }

  /** No pattern contains a whitespace character other than NBSP, and only
      the NBSP rule produces one (a space). */
  lemma PatternsSpaceFree(c: char)
    requires IsJsSpace(c) && c != TextRepair.Nbsp
    ensures forall k :: 0 <= k < |Patterns| ==> c !in Patterns[k].pattern
    ensures c != ' ' ==> forall k :: 0 <= k < |Patterns| ==> c !in Patterns[k].replacement
  {
    PatternsOverChars();
    SpaceNotPatternChar(c);
  }

  /** The rewrite neither collapses nor trims: every whitespace character
      other than NBSP keeps its count, and spaces only grow in number (NBSP
      becomes a space). */
  lemma RewriteKeepsWhitespace(s: string, c: char)
    requires IsJsSpace(c) && c != TextRepair.Nbsp
    ensures c != ' ' ==> multiset(Rewrite(s))[c] == multiset(s)[c]
    ensures multiset(Rewrite(s))[c] >= multiset(s)[c]
  {
    PatternsMatchCleanText();
    PatternsSpaceFree(c);
    RulesKeepCount(s, Patterns, c);
  }

  lemma {:induction false} RulesKeepCount(s: string, rules: seq<Rule>, c: char)
    requires TextRepair.ValidRules(rules)
    requires forall k :: 0 <= k < |rules| ==> c !in rules[k].pattern
    ensures multiset(TextRepair.ApplyRules(s, rules))[c] >= multiset(s)[c]
    ensures (forall k :: 0 <= k < |rules| ==> c !in rules[k].replacement) ==>
      multiset(TextRepair.ApplyRules(s, rules))[c] == multiset(s)[c]
    decreases |rules|
  {
    if rules != [] {
      var t := ReplaceAll(s, rules[0].pattern, rules[0].replacement);
      ReplaceAllCount(s, rules[0].pattern, rules[0].replacement, c);
      RulesKeepCount(t, rules[1..], c);
    }
  }

  /** Unlike `cleanText`, the tool leaves whitespace runs and surrounding
      whitespace alone: ASCII text that starts with whitespace is kept by the
      tool and changed by `cleanText`. */
  lemma RewriteDoesNotCollapse(s: string)
    requires AllAscii(s) && |s| > 0 && IsJsSpace(s[0])
    ensures Rewrite(s) == s
    ensures TextRepair.CleanText(Some(s)) != s
  {
    AsciiTextUntouched(s);
    LeadingSpaceCleaned(s);
  }

  /** Text that starts with whitespace is always changed by `cleanText`. */
  lemma LeadingSpaceCleaned(s: string)
    requires |s| > 0 && IsJsSpace(s[0])
    ensures TextRepair.CleanText(Some(s)) != s
  {
    var r := TextRepair.CleanText(Some(s));
    assert TextRepair.Normalized(r);
    assert |r| > 0 ==> !IsJsSpace(r[0]);
  }

  lemma {:induction false} WalkedFromRefl(entries: seq<Node>)
    ensures WalkedFrom(entries, entries)
    decreases entries
  {
    if entries != [] {
      if entries[0].Dir? {
        WalkedFromRefl(entries[0].children);
      }
      WalkedFromRefl(entries[1..]);
    }
  }

  lemma {:induction false} RewrittenRefl(entries: seq<Node>)
    ensures Rewritten(entries, entries) == 0
    decreases entries
  {
    if entries != [] {
      if entries[0].Dir? {
        RewrittenRefl(entries[0].children);
      }
      RewrittenRefl(entries[1..]);
    }
  }

  /** Replacing one directory's children changes the count by exactly the
      files changed inside it. */
  lemma {:induction false} RewrittenAt(root: seq<Node>, i: nat, d: Node)
    requires i < |root| && root[i].Dir? && d.Dir?
    ensures Rewritten(root, root[i := d]) == Rewritten(root[i].children, d.children)
    decreases root
  {
    var root' := root[i := d];
    if i == 0 {
      assert root'[1..] == root[1..];
      RewrittenRefl(root[1..]);
    } else {
      if root[0].Dir? {
        RewrittenRefl(root[0].children);
      }
      assert root'[1..] == root[1..][i - 1 := d];
      RewrittenAt(root[1..], i - 1, d);
    }
  }

  /** Two steps that never touch the same entry add up. */
  lemma {:induction false} RewrittenTriangle(a: seq<Node>, b: seq<Node>, c: seq<Node>)
    requires |a| == |b| == |c|
    requires forall j :: 0 <= j < |a| ==> a[j] == b[j] || b[j] == c[j]
    ensures Rewritten(a, c) == Rewritten(a, b) + Rewritten(b, c)
    decreases a
  {
    if a != [] {
      if b[0] == c[0] && b[0].Dir? {
        RewrittenRefl(b[0].children);
      }
      if a[0] == b[0] && a[0].Dir? {
        RewrittenRefl(a[0].children);
      }
      RewrittenTriangle(a[1..], b[1..], c[1..]);
    }
  }

  lemma {:induction false} FindUpdate(root: seq<Node>, i: nat, d: Node, t: string)
    requires i < |root| && root[i].name != t && d.name == root[i].name
    ensures Find(root[i := d], t) == Find(root, t)
    decreases root
  {
    if i > 0 && root[0].name != t {
      assert root[i := d][1..] == root[1..][i - 1 := d];
      FindUpdate(root[1..], i - 1, d, t);
    }
  }

  /** Rewriting one target leaves what the other targets would see alone. */
  lemma {:induction false} TargetsUpdate(root: seq<Node>, i: nat, d: Node, targets: seq<string>)
    requires i < |root| && root[i].name !in targets && d.name == root[i].name
    ensures TargetScan(root[i := d], targets) == TargetScan(root, targets)
    ensures TargetsOk(root[i := d], targets) == TargetsOk(root, targets)
    ensures TargetSkipped(root[i := d], targets) == TargetSkipped(root, targets)
    decreases |targets|
  {
    if targets != [] {
      FindUpdate(root, i, d, targets[0]);
      TargetsUpdate(root, i, d, targets[1..]);
    }
  }

  /** A run over the targets that does not crash leaves every walked target
      as its `Expected` tree and every other root entry as it was, and
      counts exactly the targets' `Skipped` files as skipped. */
  lemma {:induction false} RunTargetsMatchExpected(root: seq<Node>, targets: seq<string>, c: Counters)
    requires Distinct(targets)
    ensures var w := RunTargets(root, targets, c);
      !w.crashed ==>
        && (forall j :: 0 <= j < |root| ==> w.nodes[j] == ExpectedAt(root, j, targets))
        && w.counts.skipped == c.skipped + TargetSkipped(root, targets)
    decreases |targets|
  {
    if targets != [] {
      match Find(root, targets[0])
      case None =>
        RunTargetsMatchExpected(root, targets[1..], c);
        forall j | 0 <= j < |root|
          ensures ExpectedAt(root, j, targets) == ExpectedAt(root, j, targets[1..])
        {
          assert root[j].name != targets[0];
        }
      case Some(i) =>
        var e := root[i];
        if e.Dir? && e.listable {
          var sub := WalkEntries(e.children, c);
          if !sub.crashed {
            WalkMatchesExpected(e.children, c);
            var d := Dir(e.name, sub.nodes, true);
            assert targets[0] !in targets[1..];
            RunTargetsMatchExpected(root[i := d], targets[1..], sub.counts);
            TargetsUpdate(root, i, d, targets[1..]);
            forall j | 0 <= j < |root|
              ensures ExpectedAt(root[i := d], j, targets[1..]) == ExpectedAt(root, j, targets)
            {
              ExpectedAtUpdate(root, targets, i, d, j);
            }
          }
        }
    }
  }

  /** Walking the first target's directory leaves the other targets'
      places in the result unchanged. */
  lemma ExpectedAtUpdate(root: seq<Node>, targets: seq<string>, i: nat, d: Node, j: nat)
    requires Distinct(targets) && targets != []
    requires i < |root| && root[i].Dir? && root[i].name == targets[0]
    requires forall k :: 0 <= k < i ==> root[k].name != targets[0]
    requires d.Dir? && d.name == root[i].name && d.listable == root[i].listable
    requires d.children == Expected(root[i].children)
    requires j < |root|
    ensures ExpectedAt(root[i := d], j, targets[1..]) == ExpectedAt(root, j, targets)
  {
    var t := targets[0];
    assert t !in targets[1..];
    var name := root[j].name;
    if j != i && name != t {
      FindUpdate(root, i, d, name);
    } else if j != i {
      FindFirst(root, t, i);
    }
  }

  lemma {:induction false} FindFirst(root: seq<Node>, t: string, i: nat)
    requires i < |root| && root[i].name == t
    requires forall k :: 0 <= k < i ==> root[k].name != t
    ensures Find(root, t) == Some(i)
    decreases i
  {
    if i > 0 {
      FindFirst(root[1..], t, i - 1);
    }
  }

  /** The whole run, when it does not crash: `src` and `tools` hold their
      `Expected` trees, every other root entry is untouched, and the skipped
      total is exactly the `Skipped` files of the two targets. */
  lemma RunMatchesExpected(root: seq<Node>)
    ensures var w := Run(root);
      !w.crashed ==>
        && (forall j :: 0 <= j < |root| ==> w.nodes[j] == ExpectedAt(root, j, TargetDirs))
        && w.counts.skipped == TargetSkipped(root, TargetDirs)
  {
    RunTargetsMatchExpected(root, TargetDirs, Zero);
  }

  /** The run's per-entry steps make it a possible walk of the root. */
  lemma {:induction false} TopStepsWalked(root: seq<Node>, nodes: seq<Node>, targets: seq<string>)
    requires forall t :: t in targets ==> t !in SkipDir
    requires |root| == |nodes|
    requires forall j :: 0 <= j < |root| ==> TopStep(root[j], nodes[j], targets)
    ensures WalkedFrom(root, nodes)
    decreases root
  {
    if root != [] {
      if nodes[0] == root[0] && root[0].Dir? {
        WalkedFromRefl(root[0].children);
      }
      TopStepEntry(root[0], nodes[0], targets);
      TopStepsWalked(root[1..], nodes[1..], targets);
    }
  }

  lemma TopStepEntry(o: Node, n: Node, targets: seq<string>)
    requires forall t :: t in targets ==> t !in SkipDir
    requires TopStep(o, n, targets)
    ensures EntryStep(o, n)
  {
  }

  /** The apostrophe marker inside a word is rewritten to an ASCII
      apostrophe. */
  lemma RepairRightQuote()
    ensures Rewrite("It" + TextRepair.RightSingleQuote + "s") == "It's"
  {
    var text := "It" + TextRepair.RightSingleQuote + "s";
    PatternsMatchCleanText();
    var q := Patterns[0].pattern;
    assert text[..3] != q && text[1..][..3] != q && text[2..][..3] == q;
    assert text[2..][3..] == "s";
    assert ReplaceAll("s", q, "'") == "s";
    assert ReplaceAll(text[2..], q, "'") == "'s";
    assert ReplaceAll(text[1..], q, "'") == "t's";
    assert ReplaceAll(text, q, "'") == "It's";
    var rest := Patterns[1..];
    forall k | 0 <= k < |rest|
      ensures !Contains("It's", rest[k].pattern)
    {
      AsciiLacks("It's", rest[k].pattern);
    }
    TextRepair.ApplyRulesAbsent("It's", rest);
  }

  /** A name made of a non-empty stem without '.' and one of the listed
      extensions, in any letter case, is processed; a name without '.' or
      whose only '.' leads it is not. */
  lemma ShouldProcessByExtension(stem: string, ext: string)
    requires stem != "" && '.' !in stem
    requires |ext| > 0 && ext[0] == '.' && '.' !in ext[1..]
    ensures ExtName(stem + ext) == ext
    ensures ShouldProcess(stem + ext) <==> Lower(ext) in ExtOk
    ensures !ShouldProcess(stem) && !ShouldProcess(ext)
  {
    ExtNameOfStemExt(stem, ext);
    NoExtension(stem);
    NoExtension(ext);
  }

  lemma ExtNameOfStemExt(stem: string, ext: string)
    requires stem != "" && '.' !in stem
    requires |ext| > 0 && ext[0] == '.' && '.' !in ext[1..]
    ensures ExtName(stem + ext) == ext
  {
    var name := stem + ext;
    var r := ExtName(name);
    assert name[|stem|] == '.';
    assert name[0] == stem[0];
  }

  /** A name without '.' after its first character has no extension. */
  lemma NoExtension(name: string)
    requires |name| > 0 ==> '.' !in name[1..]
    ensures ExtName(name) == "" && !ShouldProcess(name)
  {
    if |name| > 0 && name[0] != '.' {
      assert name == [name[0]] + name[1..];
    }
    assert Lower("") == "";
  }

  lemma ExtNameTs()
    ensures ExtName("a.ts") == ".ts" && ShouldProcess("a.ts")
  {
    assert LastDot("a.ts") == Some(1) by {
      assert "a.ts"[..3] == "a.t" && "a.t"[..2] == "a.";
    }
    assert Lower(".ts") == ".ts";
  }

  /** An eligible file that needs repair, then an excluded directory. */
  lemma FileThenSkippedDir(f: Node, nm: Node, c: Counters)
    requires f.File? && ShouldProcess(f.name) && f.readable && f.writable && f.size <= MaxSize
    requires Rewrite(f.content) != f.content
    requires nm.Dir? && nm.name in SkipDir
    ensures WalkEntries([f] + [nm], c)
         == Walk([f.(content := Rewrite(f.content))] + [nm], c.(scanned := c.scanned + 1, changed := c.changed + 1), false)
  {
    ProcessWritable(f, c);
    var p := ProcessFile(f, c);
    SkippedDirWalk(nm, p.counts);
    FileWalk(f, [nm], c);
  }

  /** A readable, writable, small file whose rewrite differs is rewritten
      and counted as changed. */
  lemma ProcessWritable(f: Node, c: Counters)
    requires f.File? && f.readable && f.writable && f.size <= MaxSize
    requires Rewrite(f.content) != f.content
    ensures ProcessFile(f, c) == Processed(f.(content := Rewrite(f.content)), c.(scanned := c.scanned + 1, changed := c.changed + 1))
  {
    if !MayNeedRewrite(f.content) {
      QuickFilterSound(f.content);
    }
  }

  lemma SkippedDirWalk(d: Node, c: Counters)
    requires d.Dir? && d.name in SkipDir
    ensures WalkEntries([d], c) == Walk([d], c, false)
  {
    assert [d][1..] == [];
  }

  lemma FileWalk(f: Node, rest: seq<Node>, c: Counters)
    requires f.File? && ShouldProcess(f.name)
    ensures WalkEntries([f] + rest, c)
         == Prepend(ProcessFile(f, c).file, WalkEntries(rest, ProcessFile(f, c).counts))
  {
    assert ([f] + rest)[1..] == rest;
  }

  /** A root holding only a listable `src` directory is the walk of `src`. */
  lemma RunOnlySrc(children: seq<Node>)
    ensures var sub := WalkEntries(children, Zero);
      !sub.crashed ==> Run([Dir("src", children, true)]) == Walk([Dir("src", sub.nodes, true)], sub.counts, false)
  {
    var sub := WalkEntries(children, Zero);
    var root := [Dir("src", children, true)];
    var root' := [Dir("src", sub.nodes, true)];
    assert Find(root, "src") == Some(0);
    assert root[0 := root'[0]] == root';
    assert Find(root', "tools") == None;
    assert TargetDirs[1..] == ["tools"];
    assert RunTargets(root', ["tools"], sub.counts) == Walk(root', sub.counts, false) by {
      assert ["tools"][1..] == [];
    }
  }

  /** A `src` directory holding an eligible file in need of repair and an
      excluded directory: the file is rewritten and counted, and the
      excluded directory is left as it is and not counted, whatever it
      holds. */
  lemma ExcludedDirectoryPruned(f: Node, nm: Node)
    requires f.File? && ShouldProcess(f.name) && f.readable && f.writable && f.size <= MaxSize
    requires Rewrite(f.content) != f.content
    requires nm.Dir? && nm.name in SkipDir
    ensures var w := Run([Dir("src", [f, nm], true)]);
      && w.counts == Counters(1, 1, 0) && !w.crashed
      && w.nodes == [Dir("src", [f.(content := Rewrite(f.content)), nm], true)]
  {
    FileThenSkippedDir(f, nm, Zero);
    assert [f] + [nm] == [f, nm];
    assert [f.(content := Rewrite(f.content))] + [nm] == [f.(content := Rewrite(f.content)), nm];
    RunOnlySrc([f, nm]);
  }

}
