/** The list of configuration sections given to `cmp`: its right to left tokenizer and the lookup
    that walks it. */
module CmpSections {
  import opened CText

  const SECTION_NAME_MAX: nat := 40

  predicate IsSeparator(c: char) {
    c == ',' || IsSpace(c)
  }

  // ---------- Runs of characters ----------

  /** The characters from `i` to `j` are all separators, or all others. */
  predicate AllAre(s: string, i: nat, j: nat, sep: bool)
    requires i <= j <= |s|
  {
    forall k :: i <= k < j ==> IsSeparator(s[k]) == sep
  }

  /** Where the run of separators (or of others) that ends at `end` begins. */
  function RunStart(s: string, end: nat, sep: bool): (b: nat)
    requires end <= |s|
    ensures b <= end && AllAre(s, b, end, sep)
    ensures b > 0 ==> IsSeparator(s[b - 1]) != sep
  {
    if end == 0 || IsSeparator(s[end - 1]) != sep then end else RunStart(s, end - 1, sep)
  }

  /** Where the run of separators (or of others) that begins at `i` ends, at `j` at the latest. */
  function RunEnd(s: string, i: nat, j: nat, sep: bool): (n: nat)
    requires i <= j <= |s|
    ensures i <= n <= j && AllAre(s, i, n, sep)
    ensures n < j ==> IsSeparator(s[n]) != sep
    decreases j - i
  {
    if i == j || IsSeparator(s[i]) != sep then i else RunEnd(s, i + 1, j, sep)
  }

  // ---------- The names of a list, left to right ----------

  /** The maximal runs of characters other than separators between `i` and `j`. */
  function Names(s: string, i: nat, j: nat): (r: seq<string>)
    requires i <= j <= |s|
    decreases j - i
  {
    var a := RunEnd(s, i, j, true);
    if a == j then [] else
      var n := RunEnd(s, a, j, false);
      [s[a..n]] + Names(s, n, j)
  }

  /** A last name: what follows a separator, or the start. */
  lemma {:induction false} NamesSnoc(s: string, i: nat, b: nat, j: nat)
    requires i <= b < j <= |s| && AllAre(s, b, j, false) && (i < b ==> IsSeparator(s[b - 1]))
    ensures Names(s, i, j) == Names(s, i, b) + [s[b..j]]
    decreases b - i
  {
    var a := RunEnd(s, i, b, true);
    assert a == RunEnd(s, i, j, true);
    if a == b {
      assert RunEnd(s, b, j, false) == j;
      assert Names(s, j, j) == [];
    } else {
      var n := RunEnd(s, a, b, false);
      assert n == RunEnd(s, a, j, false);
      NamesSnoc(s, n, b, j);
    }
  }

  /** Separators at the end add nothing. */
  lemma {:induction false} NamesTrim(s: string, i: nat, e: nat, j: nat)
    requires i <= e <= j <= |s| && AllAre(s, e, j, true)
    ensures Names(s, i, j) == Names(s, i, e)
    decreases e - i
  {
    var a := RunEnd(s, i, e, true);
    if a == e {
      assert RunEnd(s, i, j, true) == j;
    } else {
      assert a == RunEnd(s, i, j, true);
      var n := RunEnd(s, a, e, false);
      assert e < j ==> IsSeparator(s[e]);
      assert n == RunEnd(s, a, j, false);
      NamesTrim(s, n, e, j);
    }
  }

  // ---------- The items, right to left ----------

  /** A name as far as it fits into `opt_item`. */
  function Cut(name: string): string {
    if |name| > SECTION_NAME_MAX then name[..SECTION_NAME_MAX] else name
  }

  /** The item that ends at `end`. */
  function ItemAt(opt: string, end: nat): string
    requires end <= |opt|
  {
    Cut(opt[RunStart(opt, end, false)..end])
  }

  /** Where the item before it ends. */
  function ItemBefore(opt: string, end: nat): (b: nat)
    requires 0 < end <= |opt|
    ensures b < end
  {
    RunStart(opt, RunStart(opt, end, false), true)
  }

  /** The items that repeated calls deliver from `end` on. */
  function Items(opt: string, end: nat): seq<string>
    requires end <= |opt|
  {
    if end == 0 then [] else [ItemAt(opt, end)] + Items(opt, ItemBefore(opt, end))
  }

  /** Names from last to first, cut to size. */
  function CutReversed(names: seq<string>): seq<string> {
    if names == [] then [] else [Cut(names[|names| - 1])] + CutReversed(names[..|names| - 1])
  }

  lemma CutReversedSnoc(names: seq<string>, tok: string)
    ensures CutReversed(names + [tok]) == [Cut(tok)] + CutReversed(names)
  {
    assert (names + [tok])[..|names|] == names;
  }

  /** At the end of a name the items are the names up to there, reversed. */
  lemma {:induction false} ItemsAtName(opt: string, end: nat)
    requires end <= |opt| && (end > 0 ==> !IsSeparator(opt[end - 1]))
    ensures Items(opt, end) == CutReversed(Names(opt, 0, end))
    decreases end
  {
    if end > 0 {
      var b := RunStart(opt, end, false);
      var e := RunStart(opt, b, true);
      NamesSnoc(opt, 0, b, end);
      NamesTrim(opt, 0, e, b);
      ItemsAtName(opt, e);
      CutReversedSnoc(Names(opt, 0, b), opt[b..end]);
    }
  }

  predicate EndsWithSeparator(opt: string) {
    opt != "" && IsSeparator(opt[|opt| - 1])
  }

  /** The item after the last separator is empty. */
  lemma EmptyLastItem(opt: string)
    requires EndsWithSeparator(opt)
    ensures Items(opt, |opt|) == [""] + Items(opt, RunStart(opt, |opt|, true))
  {
    assert RunStart(opt, |opt|, false) == |opt|;
    assert opt[|opt|..|opt|] == "";
    assert ItemAt(opt, |opt|) == "" && ItemBefore(opt, |opt|) == RunStart(opt, |opt|, true);
  }

  lemma TrailingItems(opt: string)
    requires EndsWithSeparator(opt)
    ensures Items(opt, |opt|) == [""] + CutReversed(Names(opt, 0, |opt|))
  {
    var e := RunStart(opt, |opt|, true);
    EmptyLastItem(opt);
    ItemsAtName(opt, e);
    NamesTrim(opt, 0, e, |opt|);
  }

  function TrailingItem(opt: string): seq<string> {
    if EndsWithSeparator(opt) then [""] else []
  }

  /** Exactly the names of the list, from last to first, cut to 40 characters, with one empty item
      in front when the list ends with separators. */
  lemma ItemsAreNames(opt: string)
    ensures Items(opt, |opt|) == TrailingItem(opt) + CutReversed(Names(opt, 0, |opt|))
  {
    if EndsWithSeparator(opt) {
      TrailingItems(opt);
    } else {
      ItemsAtName(opt, |opt|);
      NothingBefore(CutReversed(Names(opt, 0, |opt|)));
    }
  }

  lemma NothingBefore(l: seq<string>)
    ensures [] + l == l
  {
  }

  // ---------- Lookup ----------

  /** A loaded configuration and the environment. */
  datatype Conf = Conf(data: map<(string, string), string>, env: map<string, string>)

  /** What a section itself says about a name; the section ENV also asks the environment. */
  function Own(c: Conf, section: string, name: string): Option<string> {
    if (section, name) in c.data then Some(c.data[(section, name)])
    else if section == "ENV" && name in c.env then Some(c.env[name])
    else None
  }

  function Default(c: Conf, name: string): Option<string> {
    if ("default", name) in c.data then Some(c.data[("default", name)]) else None
  }

  /** `_CONF_get_string` on a loaded configuration. */
  function Lookup(c: Conf, section: string, name: string): Option<string> {
    if Own(c, section, name).Some? then Own(c, section, name) else Default(c, name)
  }

  function FirstOwn(c: Conf, items: seq<string>, name: string): Option<string> {
    if items == [] then None
    else if Own(c, items[0], name).Some? then Own(c, items[0], name)
    else FirstOwn(c, items[1..], name)
  }

  function FirstFound(c: Conf, items: seq<string>, name: string): Option<string> {
    if items == [] then None
    else if Lookup(c, items[0], name).Some? then Lookup(c, items[0], name)
    else FirstFound(c, items[1..], name)
  }

  class SectionList {
    /** `opt_item`. */
    var optItem: string

    constructor ()
      ensures optItem == ""
    {
      optItem := "";
    }

    /** `prev_item`: puts the name before `end` into `optItem` and returns where the next call
        continues; None at the start of the list. */
    method PrevItem(opt: string, end: nat) returns (r: Option<nat>)
      requires end <= |opt|
      modifies this
      ensures r.None? <==> end == 0
      ensures r.None? ==> optItem == old(optItem)
      ensures r.Some? ==> r.value == ItemBefore(opt, end) < end && optItem == ItemAt(opt, end)
    {
      if end == 0 { return None; }
      var beg := FindBack(opt, end, false);
      var len := end - beg;
      if len > SECTION_NAME_MAX { len := SECTION_NAME_MAX; }
      optItem := opt[beg..beg + len];
      assert opt[beg..beg + len] == opt[beg..end][..len];
      assert opt[beg..end][..end - beg] == opt[beg..end];
      beg := FindBack(opt, beg, true);
      return Some(beg);
    }

    /** `conf_get_string`. */
    method ConfGetString(c: Conf, groups: string, name: string) returns (res: Option<string>)
      modifies this
      ensures res == FirstFound(c, Items(groups, |groups|), name)
    {
      res := None;
      var end := PrevItem(groups, |groups|);
      ghost var at: nat := |groups|;
      while end.Some?
        invariant at <= |groups| && (end.None? <==> at == 0)
        invariant end.Some? ==> end.value == ItemBefore(groups, at) && optItem == ItemAt(groups, at)
        invariant FirstFound(c, Items(groups, |groups|), name) == FirstFound(c, Items(groups, at), name)
        decreases at
      {
        res := Lookup(c, optItem, name);
        if res.Some? { return; }
        assert Items(groups, at)[1..] == Items(groups, end.value);
        at := end.value;
        end := PrevItem(groups, end.value);
      }
      return None;
    }

    /** The check of the section list before options are read: every item must be a section. */
    method CheckSections(sections: set<string>, groups: string) returns (ok: bool)
      modifies this
      ensures ok <==> forall x :: x in Items(groups, |groups|) ==> x in sections
    {
      var end := PrevItem(groups, |groups|);
      ghost var at: nat := |groups|;
      while end.Some?
        invariant at <= |groups| && (end.None? <==> at == 0)
        invariant end.Some? ==> end.value == ItemBefore(groups, at) && optItem == ItemAt(groups, at)
        invariant (forall x :: x in Items(groups, |groups|) ==> x in sections) <==> (forall x :: x in Items(groups, at) ==> x in sections)
        decreases at
      {
        assert Items(groups, at) == [optItem] + Items(groups, end.value);
        if optItem !in sections { return false; }
        at := end.value;
        end := PrevItem(groups, end.value);
      }
      return true;
    }
  }

  /** The backward loops of `prev_item`: to the start of the run that ends at `end`. */
  method FindBack(opt: string, end: nat, sep: bool) returns (beg: nat)
    requires end <= |opt|
    ensures beg == RunStart(opt, end, sep)
  {
    beg := end;
    while beg > 0
      invariant beg <= end
      invariant RunStart(opt, beg, sep) == RunStart(opt, end, sep)
    {
      beg := beg - 1;
      if IsSeparator(opt[beg]) != sep {
        beg := beg + 1;
        break;
      }
    }
  }

  // ---------- What the list means ----------

  /** The value as documented: from the last named section that gives one, and from the default
      section when none does. */
  function Documented(c: Conf, groups: string, name: string): Option<string> {
    var own := FirstOwn(c, CutReversed(Names(groups, 0, |groups|)), name);
    if own.Some? then own else Default(c, name)
  }

  /** What the lookup computes: the last item decides alone unless neither it nor the default
      section has a value. */
  lemma {:induction false} FoundIs(c: Conf, items: seq<string>, name: string)
    ensures FirstFound(c, items, name) ==
      if items == [] then None
      else if Own(c, items[0], name).Some? then Own(c, items[0], name)
      else if Default(c, name).Some? then Default(c, name)
      else FirstOwn(c, items[1..], name)
  {
    if items != [] { FoundIs(c, items[1..], name); }
  }

  /** The documented value comes out exactly when: for an empty list, the default section has no
      value; for a list that ends in a separator, whatever the unnamed item finds is the
      documented value; otherwise, when the last name has a value of its own, or the default
      section has none, or no name has one, or the one it has is the default. */
  lemma DocumentedIff(c: Conf, groups: string, name: string)
    ensures var own, dflt := FirstOwn(c, CutReversed(Names(groups, 0, |groups|)), name), Default(c, name);
      FirstFound(c, Items(groups, |groups|), name) == Documented(c, groups, name) <==>
        if groups == "" then dflt.None?
        else if EndsWithSeparator(groups) && Own(c, "", name).Some? then
          own == Own(c, "", name) || (own.None? && dflt == Own(c, "", name))
        else
          Own(c, Items(groups, |groups|)[0], name).Some? || dflt.None? || own.None? || own == dflt
  {
    var items, names := Items(groups, |groups|), CutReversed(Names(groups, 0, |groups|));
    ItemsAreNames(groups);
    FoundIs(c, items, name);
    if EndsWithSeparator(groups) {
      assert items[1..] == names;
    } else {
      assert items == names;
    }
  }

  /** Two sections and a default: the default hides the value of the section named first. */
  lemma DefaultHidesFirstSection()
    ensures var c := Conf(map[("a", "x") := "1", ("default", "x") := "0"], map[]);
      FirstFound(c, Items("a,b", 3), "x") == Some("0") && Documented(c, "a,b", "x") == Some("1")
  {
    var c := Conf(map[("a", "x") := "1", ("default", "x") := "0"], map[]);
    var s := "a,b";
    assert RunStart(s, 3, false) == 2 && RunStart(s, 2, true) == 1 && s[2..3] == "b";
    assert Items(s, 3)[0] == "b";
    FoundIs(c, Items(s, 3), "x");
    assert RunStart(s, 1, false) == 0 && s[0..1] == "a" && Items(s, 1) == ["a"];
    assert Items(s, 3) == ["b", "a"];
    ItemsAreNames(s);
    assert FirstOwn(c, ["b", "a"][1..], "x") == Some("1");
    assert FirstOwn(c, ["b", "a"], "x") == Some("1");
  }

  /** Names are cut to 40 characters. */
  lemma LongItem(long: string)
    requires |long| > 40 && AllAre(long, 0, |long|, false)
    ensures Items(long, |long|) == [long[..40]]
  {
    assert RunStart(long, |long|, false) == 0 && long[0..|long|] == long;
    assert RunStart(long, 0, true) == 0;
    assert Items(long, 0) == [];
  }

  /** The section ENV asks the environment, and no other section does. */
  lemma EnvironmentSection(c: Conf, section: string, name: string, value: string)
    requires (section, name) !in c.data && name in c.env && c.env[name] == value
    ensures Own(c, "ENV", name) == (if ("ENV", name) in c.data then Some(c.data[("ENV", name)]) else Some(value))
    ensures section != "ENV" ==> Own(c, section, name) == None
  {
  }

  /** Commas and blanks both separate. */
  lemma ThreeItems()
    ensures Items("a,b c", 5) == ["c", "b", "a"]
  {
    var s := "a,b c";
    assert RunStart(s, 5, false) == 4 && RunStart(s, 4, true) == 3 && s[4..5] == "c";
    assert RunStart(s, 3, false) == 2 && RunStart(s, 2, true) == 1 && s[2..3] == "b";
    assert RunStart(s, 1, false) == 0 && RunStart(s, 0, true) == 0 && s[0..1] == "a";
    assert Items(s, 1) == ["a"];
    assert Items(s, 3) == ["b"] + Items(s, 1);
    assert Items(s, 5) == ["c"] + Items(s, 3);
  }

  /** A list that ends in separators has one empty item. */
  lemma TrailingBlank()
    ensures Items("a, ", 3) == ["", "a"]
  {
    var s := "a, ";
    assert RunStart(s, 3, false) == 3 && s[3..3] == "";
    assert RunStart(s, 3, true) == 1;
    assert RunStart(s, 1, false) == 0 && RunStart(s, 0, true) == 0 && s[0..1] == "a";
    assert Items(s, 1) == ["a"];
    assert Items(s, 3) == [""] + Items(s, 1);
  }
}
