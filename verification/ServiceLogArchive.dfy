/** Copying service logs into the run report: one file for each database and
    category, a shared byte budget, and only the leading records of each. */
module ServiceLogArchive {
  import opened Options
  import opened DumpBudget

  const SERVICE_LOG_BUDGET: nat := 2 * 1024 * 1024

  /** A stored row: its category, if it is a record of a known service, and the
      line it would be archived as. */
  datatype Row = Row(category: Option<string>, line: string)

  /** The lines of one category of one database, newest first. */
  datatype Group = Group(database: nat, category: string, lines: seq<string>)

  datatype Archived = Archived(group: Group, kept: seq<string>, written: nat)

  // ---------------------------------------------------------------- grouping

  function Lines(rows: seq<Row>, category: string): seq<string> {
    if rows == [] then [] else
    var last := rows[|rows| - 1];
    Lines(rows[..|rows| - 1], category) + (if last.category == Some(category) then [last.line] else [])
  }

  /** The categories of the rows, each where it first appears. */
  function Categories(rows: seq<Row>): seq<string> {
    if rows == [] then [] else
    var before := Categories(rows[..|rows| - 1]);
    match rows[|rows| - 1].category
    case None => before
    case Some(category) => if category in before then before else before + [category]
  }

  lemma {:induction false} CategoriesExactly(rows: seq<Row>)
    ensures forall i, j | 0 <= i < j < |Categories(rows)| :: Categories(rows)[i] != Categories(rows)[j]
    ensures forall category :: category in Categories(rows) <==> Lines(rows, category) != []
  {
    if rows != [] {
      CategoriesExactly(rows[..|rows| - 1]);
    }
  }

  function Groups(database: nat, rows: seq<Row>): seq<Group> {
    var categories := Categories(rows);
    seq(|categories|, i requires 0 <= i < |categories| => Group(database, categories[i], Lines(rows, categories[i])))
  }

  /** The groups of the databases from the given one on. */
  function GroupsFrom(databases: seq<seq<Row>>, first: nat): seq<Group>
    decreases |databases| - first
  {
    if first >= |databases| then [] else Groups(first, databases[first]) + GroupsFrom(databases, first + 1)
  }

  method GroupRows(rows: seq<Row>) returns (order: seq<string>, grouped: map<string, seq<string>>)
    ensures order == Categories(rows)
    ensures forall category | category in order :: category in grouped && grouped[category] == Lines(rows, category)
  {
    order, grouped := [], map[];
    for i := 0 to |rows|
      invariant order == Categories(rows[..i])
      invariant forall category :: category in grouped <==> category in order
      invariant forall category | category in grouped :: grouped[category] == Lines(rows[..i], category)
      invariant forall category | category !in grouped :: Lines(rows[..i], category) == []
    {
      assert rows[..i + 1][..i] == rows[..i];
      if rows[i].category.Some? {
        var category := rows[i].category.value;
        if category !in grouped {
          order := order + [category];
          grouped := grouped[category := []];
        }
        grouped := grouped[category := grouped[category] + [rows[i].line]];
      }
    }
    assert rows[..|rows|] == rows;
  }

  // --------------------------------------------------------------- budgeting

  function Joined(lines: seq<string>): string {
    if lines == [] then "" else Joined(lines[..|lines| - 1]) + lines[|lines| - 1]
  }

  function TotalSize(lines: seq<string>): nat {
    if lines == [] then 0 else TotalSize(lines[..|lines| - 1]) + Size(lines[|lines| - 1])
  }

  /** How many leading lines fit in room bytes: all that come before the first that
      does not fit. */
  ghost predicate Fits(lines: seq<string>, count: nat, room: int) {
    && count <= |lines|
    && (count == 0 || TotalSize(lines[..count]) <= room)
    && (count < |lines| ==> TotalSize(lines[..count + 1]) > room)
  }

  function Leading(lines: seq<string>, room: int, from: nat): (count: nat)
    requires from <= |lines|
    ensures from <= count <= |lines|
    decreases |lines| - from
  {
    if from < |lines| && TotalSize(lines[..from + 1]) <= room then Leading(lines, room, from + 1) else from
  }

  lemma {:induction false} LeadingFits(lines: seq<string>, room: int, from: nat)
    requires from <= |lines| && (from == 0 || TotalSize(lines[..from]) <= room)
    ensures Fits(lines, Leading(lines, room, from), room)
    decreases |lines| - from
  {
    if from < |lines| && TotalSize(lines[..from + 1]) <= room {
      LeadingFits(lines, room, from + 1);
    }
  }

  datatype Archive = Archive(used: nat, files: seq<Archived>)

  /** One category: what fits is kept, and a file is written if that is anything. */
  function Stored(render: Render, a: Archive, group: Group): Archive {
    var kept := group.lines[..Leading(group.lines, SERVICE_LOG_BUDGET - a.used, 0)];
    var encoded := Joined(kept);
    if encoded == "" then a else
    Archive(a.used + Size(render(encoded)), a.files + [Archived(group, kept, Size(render(encoded)))])
  }

  /** The archive stops as soon as a category leaves no budget. */
  function StoreAll(render: Render, a: Archive, groups: seq<Group>): Archive
    decreases |groups|
  {
    if groups == [] then a else
    var next := Stored(render, a, groups[0]);
    if next.used >= SERVICE_LOG_BUDGET then next else StoreAll(render, next, groups[1..])
  }

  method StoreCategory(render: Render, before: Archive, group: Group) returns (a: Archive)
    ensures a == Stored(render, before, group)
  {
    var encoded, category_bytes, count := "", 0, 0;
    while count < |group.lines| && !(before.used + category_bytes + Size(group.lines[count]) > SERVICE_LOG_BUDGET)
      invariant count <= |group.lines|
      invariant category_bytes == TotalSize(group.lines[..count]) && encoded == Joined(group.lines[..count])
      invariant Leading(group.lines, SERVICE_LOG_BUDGET - before.used, 0)
             == Leading(group.lines, SERVICE_LOG_BUDGET - before.used, count)
    {
      assert group.lines[..count + 1][..count] == group.lines[..count];
      encoded := encoded + group.lines[count];
      category_bytes := category_bytes + Size(group.lines[count]);
      count := count + 1;
    }
    if count < |group.lines| {
      assert group.lines[..count + 1][..count] == group.lines[..count];
    }
    a := before;
    if encoded != "" {
      var rendered := render(encoded);
      a := Archive(a.used + Size(rendered), a.files + [Archived(group, group.lines[..count], Size(rendered))]);
    }
  }

  /** One database; full when the budget is used up. rest is what would follow. */
  method ArchiveDatabase(render: Render, before: Archive, database: nat, rows: seq<Row>, ghost rest: seq<Group>)
    returns (a: Archive, full: bool)
    ensures StoreAll(render, before, Groups(database, rows) + rest) == if full then a else StoreAll(render, a, rest)
  {
    var order, grouped := GroupRows(rows);
    ghost var groups := Groups(database, rows);
    assert |groups| == |order| && forall i | 0 <= i < |order| :: groups[i] == Group(database, order[i], grouped[order[i]]);
    hide Stored, Lines, Categories, Groups;
    a, full := before, false;
    assert groups[0..] + rest == groups + rest;
    for i := 0 to |order|
      invariant StoreAll(render, a, groups[i..] + rest) == StoreAll(render, before, groups + rest)
    {
      assert (groups[i..] + rest)[0] == groups[i] && (groups[i..] + rest)[1..] == groups[i + 1..] + rest;
      a := StoreCategory(render, a, Group(database, order[i], grouped[order[i]]));
      if a.used >= SERVICE_LOG_BUDGET {
        full := true;
        return;
      }
    }
    assert groups[|order|..] + rest == rest;
  }

  /** archive_service_logs, over the rows each readable database yields. */
  method ArchiveServiceLogs(render: Render, databases: seq<seq<Row>>) returns (a: Archive)
    ensures a == StoreAll(render, Archive(0, []), GroupsFrom(databases, 0))
  {
    a := Archive(0, []);
    hide Stored, Groups;
    for database := 0 to |databases|
      invariant StoreAll(render, a, GroupsFrom(databases, database))
             == StoreAll(render, Archive(0, []), GroupsFrom(databases, 0))
    {
      var full;
      a, full := ArchiveDatabase(render, a, database, databases[database], GroupsFrom(databases, database + 1));
      if full {
        return;
      }
    }
  }

  // -------------------------------------------------------------- properties

  lemma {:induction false} JoinedSize(lines: seq<string>)
    ensures Size(Joined(lines)) == TotalSize(lines)
  {
    if lines != [] {
      JoinedSize(lines[..|lines| - 1]);
      SizeConcat(Joined(lines[..|lines| - 1]), lines[|lines| - 1]);
    }
  }

  function Written(files: seq<Archived>): nat {
    if files == [] then 0 else Written(files[..|files| - 1]) + files[|files| - 1].written
  }

  /** File k holds the longest run of leading records that the files before it left
      room for. */
  ghost predicate Faithful(render: Render, files: seq<Archived>, k: nat)
    requires k < |files|
  {
    var f := files[k];
    && f.kept != [] && f.kept <= f.group.lines
    && Fits(f.group.lines, |f.kept|, SERVICE_LOG_BUDGET - Written(files[..k]))
    && f.written == Size(render(Joined(f.kept)))
  }

  ghost predicate Sound(render: Render, a: Archive) {
    a.used == Written(a.files) && forall k | 0 <= k < |a.files| :: Faithful(render, a.files, k)
  }

  lemma AddedSound(render: Render, a: Archive, f: Archived)
    requires Sound(render, a)
    requires f.kept != [] && f.kept <= f.group.lines && f.written == Size(render(Joined(f.kept)))
    requires Fits(f.group.lines, |f.kept|, SERVICE_LOG_BUDGET - a.used)
    ensures Sound(render, Archive(a.used + f.written, a.files + [f]))
  {
    hide Fits, Joined, Size;
    var files := a.files + [f];
    assert files[..|a.files|] == a.files;
    forall k | 0 <= k < |a.files| ensures Faithful(render, files, k) {
      assert Faithful(render, a.files, k);
      assert files[..k] == a.files[..k];
    }
  }

  lemma StoredSound(render: Render, a: Archive, group: Group)
    requires Sound(render, a)
    ensures Sound(render, Stored(render, a, group))
    ensures a.files <= Stored(render, a, group).files && |Stored(render, a, group).files| <= |a.files| + 1
  {
    var room := SERVICE_LOG_BUDGET - a.used;
    var count := Leading(group.lines, room, 0);
    var kept := group.lines[..count];
    LeadingFits(group.lines, room, 0);
    JoinedSize(kept);
    if Joined(kept) != "" {
      AddedSound(render, a, Archived(group, kept, Size(render(Joined(kept)))));
    }
  }

  /** All files but the last leave budget. */
  ghost predicate OpenBeforeLast(a: Archive) {
    a.files != [] ==> Written(a.files[..|a.files| - 1]) < SERVICE_LOG_BUDGET
  }

  /** What is on disk adds up, each file keeps the longest leading run that fits,
      and only the last can miss the budget. */
  lemma {:induction false} ArchiveSound(render: Render, a: Archive, groups: seq<Group>)
    requires Sound(render, a) && a.used < SERVICE_LOG_BUDGET && OpenBeforeLast(a)
    ensures Sound(render, StoreAll(render, a, groups)) && OpenBeforeLast(StoreAll(render, a, groups))
    decreases |groups|
  {
    if groups != [] {
      var next := Stored(render, a, groups[0]);
      StoredSound(render, a, groups[0]);
      assert next.files == a.files || next.files[..|next.files| - 1] == a.files;
      if next.used < SERVICE_LOG_BUDGET {
        ArchiveSound(render, next, groups[1..]);
      }
    }
  }

  /** The budget holds exactly when the last file, as written, is no larger than what
      was left for it; so always when redaction does not lengthen that file. */
  lemma ArchiveWithinExactly(render: Render, groups: seq<Group>)
    ensures var a := StoreAll(render, Archive(0, []), groups);
            && (a.used <= 2_097_152 <==>
                  a.files == [] || a.files[|a.files| - 1].written
                                   <= 2_097_152 - Written(a.files[..|a.files| - 1]))
            && (a.files != [] && a.files[|a.files| - 1].written <= TotalSize(a.files[|a.files| - 1].kept) ==>
                  a.used <= 2_097_152)
  {
    ArchiveSound(render, Archive(0, []), groups);
    var a := StoreAll(render, Archive(0, []), groups);
    if a.files != [] {
      var k := |a.files| - 1;
      assert Faithful(render, a.files, k);
      var f := a.files[k];
      assert f.group.lines[..|f.kept|] == f.kept;
    }
  }

  /** A category that fills the budget and is lengthened misses it. */
  lemma LengthenedArchiveExceeds(render: Render, line: string)
    requires Size(line) == SERVICE_LOG_BUDGET && Lengthened(render, line)
    ensures StoreAll(render, Archive(0, []), [Group(0, "cli", [line])]).used > SERVICE_LOG_BUDGET
  {
    var group := Group(0, "cli", [line]);
    assert [line][..0] == [] && Joined([line]) == "" + line && TotalSize([line]) == Size(line);
    StoredWhole(render, Archive(0, []), group);
    assert Joined(group.lines) == line;
    assert Stored(render, Archive(0, []), group).used == 0 + Size(render(Joined(group.lines)));
    assert [group][0] == group;
  }

  function Demand(groups: seq<Group>): nat {
    if groups == [] then 0 else TotalSize(groups[0].lines) + Demand(groups[1..])
  }

  ghost predicate NonEmpty(groups: seq<Group>) {
    forall i | 0 <= i < |groups| :: groups[i].lines != [] && "" !in groups[i].lines
  }

  function Whole(render: Render, groups: seq<Group>): seq<Archived> {
    seq(|groups|, i requires 0 <= i < |groups| =>
      Archived(groups[i], groups[i].lines, Size(render(Joined(groups[i].lines)))))
  }

  lemma {:induction false} LeadingAll(lines: seq<string>, room: int, from: nat)
    requires from <= |lines| && TotalSize(lines) <= room
    ensures Leading(lines, room, from) == |lines|
    decreases |lines| - from
  {
    if from < |lines| {
      PrefixSize(lines, from + 1);
      LeadingAll(lines, room, from + 1);
    }
  }

  lemma {:induction false} PrefixSize(lines: seq<string>, count: nat)
    requires count <= |lines|
    ensures TotalSize(lines[..count]) <= TotalSize(lines)
  {
    if count < |lines| {
      var init := lines[..|lines| - 1];
      PrefixSize(init, count);
      assert init[..count] == lines[..count];
    } else {
      assert lines[..count] == lines;
    }
  }

  lemma StoredWhole(render: Render, a: Archive, group: Group)
    requires group.lines != [] && "" !in group.lines
    requires a.used + TotalSize(group.lines) <= SERVICE_LOG_BUDGET
    ensures TotalSize(group.lines) > 0
    ensures var written := Size(render(Joined(group.lines)));
            Stored(render, a, group) == Archive(a.used + written, a.files + [Archived(group, group.lines, written)])
  {
    LeadingAll(group.lines, SERVICE_LOG_BUDGET - a.used, 0);
    assert group.lines[..|group.lines|] == group.lines;
    var last := group.lines[|group.lines| - 1];
    assert last in group.lines && Joined(group.lines) == Joined(group.lines[..|group.lines| - 1]) + last;
  }

  /** Nothing is dropped while everything fits. */
  lemma {:induction false} ArchiveWhole(render: Render, a: Archive, groups: seq<Group>)
    requires NonEmpty(groups) && forall g <- groups :: !Lengthened(render, Joined(g.lines))
    requires a.used + Demand(groups) <= SERVICE_LOG_BUDGET
    ensures StoreAll(render, a, groups).files == a.files + Whole(render, groups)
    decreases |groups|
  {
    if groups != [] {
      var next, rest := Stored(render, a, groups[0]), groups[1..];
      StoredWhole(render, a, groups[0]);
      JoinedSize(groups[0].lines);
      WholeStep(render, groups);
      assert groups[0] in groups && forall g <- rest :: g in groups;
      if rest != [] {
        SomeDemand(rest);
      }
      hide Stored, Joined, TotalSize, Size, Whole;
      if rest != [] {
        ArchiveWhole(render, next, rest);
      }
    }
  }

  lemma WholeStep(render: Render, groups: seq<Group>)
    requires groups != [] && NonEmpty(groups)
    ensures NonEmpty(groups[1..]) && Whole(render, groups) == Whole(render, groups[..1]) + Whole(render, groups[1..])
    ensures Whole(render, groups[..1])
         == [Archived(groups[0], groups[0].lines, Size(render(Joined(groups[0].lines))))]
    ensures groups[1..] == [] ==> Whole(render, groups[1..]) == []
  {
    hide Size, Joined;
    forall i | 0 <= i < |groups| - 1 ensures groups[1..][i] == groups[i + 1] {
    }
  }

  lemma SomeDemand(groups: seq<Group>)
    requires groups != [] && NonEmpty(groups)
    ensures Demand(groups) > 0
  {
    var lines := groups[0].lines;
    assert lines[|lines| - 1] in lines;
  }

  ghost predicate HasFile(a: Archive, group: Group) {
    exists f <- a.files :: f.group == group
  }

  /** A group without a file has a first line larger than what is left in the end. */
  ghost predicate Missed(a: Archive, group: Group)
    requires group.lines != []
  {
    HasFile(a, group) || Size(group.lines[0]) > SERVICE_LOG_BUDGET - a.used
  }

  lemma StoredOrMissed(render: Render, a: Archive, group: Group)
    requires group.lines != [] && "" !in group.lines
    ensures var next := Stored(render, a, group);
            && next.used >= a.used && a.files <= next.files
            && (HasFile(next, group) || (next == a && Size(group.lines[0]) > SERVICE_LOG_BUDGET - a.used))
  {
    var room := SERVICE_LOG_BUDGET - a.used;
    var count := Leading(group.lines, room, 0);
    var next := Stored(render, a, group);
    LeadingFits(group.lines, room, 0);
    if count == 0 {
      assert group.lines[..1][..0] == [] && TotalSize(group.lines[..1]) == Size(group.lines[0]);
    } else {
      var kept := group.lines[..count];
      assert kept[count - 1] == group.lines[count - 1] && group.lines[count - 1] in group.lines;
      assert Joined(kept) == Joined(kept[..count - 1]) + kept[count - 1];
      assert next.files[|a.files|].group == group && next.files[|a.files|] in next.files;
    }
  }

  lemma {:induction false} ArchiveKeeps(render: Render, a: Archive, groups: seq<Group>)
    requires NonEmpty(groups)
    ensures a.used <= StoreAll(render, a, groups).used && a.files <= StoreAll(render, a, groups).files
    decreases |groups|
  {
    if groups != [] {
      StoredOrMissed(render, a, groups[0]);
      assert forall i | 0 <= i < |groups| - 1 :: groups[1..][i] == groups[i + 1];
      ArchiveKeeps(render, Stored(render, a, groups[0]), groups[1..]);
    }
  }

  /** Every category has its turn until the budget is used up: when some is left in the
      end, a category is missing only because its first line would not fit that. */
  lemma {:induction false} EveryCategoryTried(render: Render, a: Archive, groups: seq<Group>, k: nat)
    requires NonEmpty(groups) && k < |groups| && StoreAll(render, a, groups).used < SERVICE_LOG_BUDGET
    ensures Missed(StoreAll(render, a, groups), groups[k])
    decreases |groups|
  {
    var next, rest := Stored(render, a, groups[0]), groups[1..];
    assert forall i | 0 <= i < |groups| - 1 :: rest[i] == groups[i + 1];
    StoredOrMissed(render, a, groups[0]);
    ArchiveKeeps(render, next, rest);
    hide Stored, Size;
    if k > 0 {
      EveryCategoryTried(render, next, rest, k - 1);
    } else if HasFile(next, groups[0]) {
      var f :| f in next.files && f.group == groups[0];
      assert f in StoreAll(render, a, groups).files;
    }
  }

  // ------------------------------------------------- what the parts stand for

  /** The lines at these positions of the rows, in order: all of the category. */
  ghost predicate Taken(rows: seq<Row>, category: string, lines: seq<string>, at: seq<nat>) {
    && |at| == |lines|
    && (forall i, j | 0 <= i < j < |at| :: at[i] < at[j])
    && (forall k | 0 <= k < |at| :: at[k] < |rows| && lines[k] == rows[at[k]].line)
    && (forall i: nat | i < |rows| :: i in at <==> rows[i].category == Some(category))
  }

  lemma {:induction false} LinesTaken(rows: seq<Row>, category: string) returns (at: seq<nat>)
    ensures Taken(rows, category, Lines(rows, category), at)
  {
    if rows == [] {
      at := [];
    } else {
      var front, last := rows[..|rows| - 1], rows[|rows| - 1];
      at := LinesTaken(front, category);
      TakenNext(front, last, category, Lines(front, category), at);
      assert rows == front + [last];
      assert Lines(front, category) + [] == Lines(front, category);
      if last.category == Some(category) {
        at := at + [|front|];
      }
    }
  }

  lemma TakenNext(front: seq<Row>, last: Row, category: string, lines: seq<string>, at: seq<nat>)
    requires Taken(front, category, lines, at)
    ensures if last.category == Some(category)
            then Taken(front + [last], category, lines + [last.line], at + [|front|])
            else Taken(front + [last], category, lines, at)
  {
    var rows := front + [last];
    assert |front| !in at;
    forall i: nat | i < |rows|
      ensures i in at + [|front|] <==> i in at || i == |front|
      ensures i < |front| ==> rows[i] == front[i]
    {
    }
  }

  /** Category x appears in the rows before category y does. */
  ghost predicate AppearsBefore(rows: seq<Row>, x: string, y: string) {
    exists i: nat :: i < |rows| && rows[i].category == Some(x) && forall j | 0 <= j <= i :: rows[j].category != Some(y)
  }

  lemma {:induction false} CategoriesInOrder(rows: seq<Row>)
    ensures forall category :: category in Categories(rows) <==> exists i: nat :: i < |rows| && rows[i].category == Some(category)
    ensures forall i, j | 0 <= i < j < |Categories(rows)| :: AppearsBefore(rows, Categories(rows)[i], Categories(rows)[j])
  {
    if rows != [] {
      var front, last := rows[..|rows| - 1], rows[|rows| - 1];
      var earlier, now := Categories(front), Categories(rows);
      CategoriesInOrder(front);
      assert forall i | 0 <= i < |front| :: rows[i] == front[i];
      assert rows[|front|] == last;
      forall i, j | 0 <= i < j < |now| ensures AppearsBefore(rows, now[i], now[j]) {
        assert now[i] == earlier[i] && earlier[i] in earlier;
        if j < |earlier| {
          assert AppearsBefore(front, earlier[i], earlier[j]);
          var k: nat :| k < |front| && front[k].category == Some(earlier[i])
                        && forall l | 0 <= l <= k :: front[l].category != Some(earlier[j]);
          assert rows[k] == front[k];
        } else {
          var k: nat :| k < |front| && front[k].category == Some(earlier[i]);
          assert rows[k] == front[k];
          assert forall l | 0 <= l <= k :: front[l].category != last.category;
        }
      }
    }
  }

  /** A file holds its lines one after the other. */
  lemma {:induction false} JoinedAll(a: seq<string>, b: seq<string>)
    ensures Joined([]) == "" && Joined(a + b) == Joined(a) + Joined(b)
    ensures forall line: string :: Joined([line]) == line
  {
    forall line: string ensures Joined([line]) == line {
      assert [line][..0] == [] && "" + line == line;
    }
    if b == [] {
      assert a + b == a;
    } else {
      var front, last := b[..|b| - 1], b[|b| - 1];
      JoinedAll(a, front);
      assert (a + b)[..|a + b| - 1] == a + front;
      assert Joined(a) + (Joined(front) + last) == (Joined(a) + Joined(front)) + last;
    }
  }

  /** The groups come database by database, each with its categories in order. */
  lemma {:induction false} GroupsByDatabase(databases: seq<seq<Row>>, first: nat, database: nat) returns (from: nat)
    requires first <= database < |databases|
    ensures var all, categories := GroupsFrom(databases, first), Categories(databases[database]);
            && from + |categories| <= |all|
            && (forall k | 0 <= k < from :: all[k].database < database)
            && (forall k | from <= k < from + |categories| ::
                  all[k] == Group(database, categories[k - from], Lines(databases[database], categories[k - from])))
    decreases |databases| - first
  {
    var own := Groups(first, databases[first]);
    if first == database {
      from := 0;
    } else {
      from := GroupsByDatabase(databases, first + 1, database);
      Shifted(own, GroupsFrom(databases, first + 1), first);
      from := |own| + from;
    }
  }

  lemma Shifted(own: seq<Group>, rest: seq<Group>, first: nat)
    ensures forall k | |own| <= k < |own| + |rest| :: (own + rest)[k] == rest[k - |own|]
  {
  }
}
