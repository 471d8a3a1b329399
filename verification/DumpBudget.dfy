/** Byte budgets of the diagnostic dump: what is counted, what is kept, and when
    the caps hold. */
module DumpBudget {
  import opened Options
  import opened Decimals

  const MAX_DUMP_BYTES: nat := 5 * 1024 * 1024
  const CONTENT_BUDGET: nat := MAX_DUMP_BYTES - 64 * 1024

  // ---------------------------------------------------------- encoded sizes

  /** Bytes of one character in UTF-8. */
  function Width(c: char): (w: nat)
    ensures 1 <= w <= 4
  {
    if c as int < 0x80 then 1 else if c as int < 0x800 then 2 else if c as int < 0x10000 then 3 else 4
  }

  function Size(text: string): nat {
    if text == [] then 0 else Width(text[0]) + Size(text[1..])
  }

  const REPLACEMENT := '\U{FFFD}'

  /** encoded[:count].decode(errors="replace"), for a count that is not negative:
      a character that was cut becomes one replacement character. */
  function Clip(text: string, count: nat): string {
    if text == [] || count == 0 then []
    else if Width(text[0]) <= count then [text[0]] + Clip(text[1..], count - Width(text[0]))
    else [REPLACEMENT]
  }

  /** Bytes of the cut character that lie before the cut. */
  function Leftover(text: string, count: nat): nat {
    if text == [] || count == 0 then 0
    else if Width(text[0]) <= count then Leftover(text[1..], count - Width(text[0]))
    else count
  }

  /** The length of encoded[:budget]: a negative budget counts from the end. */
  function CutLength(size: nat, budget: int): nat {
    if budget >= 0 then budget else if size + budget >= 0 then size + budget else 0
  }

  function Bounded(text: string, budget: int): string {
    if Size(text) > budget then Clip(text, CutLength(Size(text), budget)) else text
  }

  lemma {:induction false} ClipSize(text: string, count: nat)
    requires count <= Size(text)
    ensures Size(Clip(text, count)) == count + (if Leftover(text, count) == 0 then 0 else 3 - Leftover(text, count))
    ensures Leftover(text, count) <= 3
  {
    if text != [] && count > 0 {
      if Width(text[0]) <= count {
        ClipSize(text[1..], count - Width(text[0]));
      } else {
        assert Size([REPLACEMENT]) == 3;
      }
    }
  }

  /** Cutting keeps to a budget exactly when the budget is not negative and the cut
      does not leave one or two bytes of a character, which grow to three. */
  lemma BoundedExactly(text: string, budget: int)
    requires Size(text) > budget
    ensures Size(Bounded(text, budget)) <= budget
       <==> budget >= 0 && Leftover(text, budget) !in {1, 2}
  {
    if budget >= 0 {
      ClipSize(text, budget);
    }
  }

  /** UTF-8 spends 7 bits of a character on one byte, 11 on two, 16 on three, 21 on
      four: a character takes the fewest bytes that hold it. */
  lemma WidthExactly(c: char)
    ensures (c as int < 128 && Width(c) == 1)
            || (128 <= c as int < 128 * 16 && Width(c) == 2)
            || (128 * 16 <= c as int < 256 * 256 && Width(c) == 3)
            || (256 * 256 <= c as int < 17 * 256 * 256 && Width(c) == 4)
    ensures Width('\U{FFFD}') == 3
  {
  }

  /** What a cut keeps: the characters that end within it, and one replacement
      character for one that is cut in two. */
  lemma {:induction false} ClipExactly(text: string, count: nat) returns (k: nat)
    requires count <= Size(text)
    ensures k <= |text| && Size(text[..k]) + Leftover(text, count) == count
    ensures Leftover(text, count) == 0 ==> Clip(text, count) == text[..k]
    ensures Leftover(text, count) > 0 ==>
              k < |text| && Leftover(text, count) < Width(text[k]) && Clip(text, count) == text[..k] + ['\U{FFFD}']
  {
    if text == [] || count == 0 {
      k := 0;
    } else if Width(text[0]) <= count {
      k := ClipExactly(text[1..], count - Width(text[0]));
      assert text[..k + 1] == [text[0]] + text[1..][..k];
      assert Size(text[..k + 1]) == Width(text[0]) + Size(text[1..][..k]) by {
        assert text[..k + 1][1..] == text[1..][..k];
      }
      k := k + 1;
    } else {
      k := 0;
      assert text[..0] + ['\U{FFFD}'] == [REPLACEMENT];
    }
  }

  /** How far a command's output is cut: to what is left, or, where less than nothing is
      left, by as many bytes from its end; not at all if it fits. */
  lemma BoundedCut(text: string, budget: int)
    ensures Size(text) <= budget ==> Bounded(text, budget) == text
    ensures 0 <= budget < Size(text) ==> Bounded(text, budget) == Clip(text, budget)
    ensures budget < 0 && Size(text) + budget >= 0 ==> Bounded(text, budget) == Clip(text, Size(text) + budget)
    ensures Size(text) + budget < 0 ==> Bounded(text, budget) == ""
  {
  }

  // -------------------------------------------------------------- the ledger

  /** A redactor, with the secrets and the environment it was given. */
  type Render = string -> string

  /** One thing the dump tries to keep. copy is the size of the file a copy or a
      probe left on disk, None if there is none; text is what a listing or a command
      would write, before the redactor that this writer applies (render); a guarded
      command is skipped when the budget is used up. */
  datatype Item =
    | Copied(name: string, copy: Option<nat>)
    | Probed(name: string, copy: Option<nat>)
    | Listed(name: string, text: string, render: Render)
    | Ran(name: string, text: string, guarded: bool, render: Render)

  datatype Entry = Entry(name: string, size: nat)

  datatype Ledger = Ledger(used: nat, entries: seq<Entry>, files: map<string, nat>)

  const EMPTY := Ledger(0, [], map[])

  function Kept(l: Ledger, name: string, size: nat): Ledger {
    Ledger(l.used + size, l.entries + [Entry(name, size)], l.files[name := size])
  }

  /** An empty file counts as nothing written: it is neither listed nor removed. */
  function Offered(l: Ledger, name: string, copy: Option<nat>): Ledger {
    match copy
    case None => l
    case Some(size) =>
      if size == 0 then l.(files := l.files[name := 0])
      else if l.used + size <= CONTENT_BUDGET then Kept(l, name, size)
      else l.(files := l.files - {name})
  }

  predicate Skipped(l: Ledger, item: Item) {
    match item
    case Copied(_, _) => l.used >= CONTENT_BUDGET
    case Probed(_, _) => false
    case Listed(_, text, _) => l.used + Size(text) > CONTENT_BUDGET
    case Ran(_, _, guarded, _) => guarded && l.used >= CONTENT_BUDGET
  }

  /** The ledger after one more item. */
  function Next(l: Ledger, item: Item): Ledger {
    if Skipped(l, item) then l else
    match item
    case Copied(name, copy) => Offered(l, name, copy)
    case Probed(name, copy) => Offered(l, name, copy)
    case Listed(name, text, render) => Kept(l, name, Size(render(text)))
    case Ran(name, text, _, render) => Kept(l, name, Size(render(Bounded(text, CONTENT_BUDGET - l.used))))
  }

  function After(l: Ledger, items: seq<Item>): Ledger
    decreases |items|
  {
    if items == [] then l else After(Next(l, items[0]), items[1..])
  }

  /** dump_platform_state, from the point where its root is known. */
  class PlatformDump {
    var used: nat
    var entries: seq<Entry>
    var files: map<string, nat>

    function Contents(): Ledger
      reads this
    {
      Ledger(used, entries, files)
    }

    constructor ()
      ensures Contents() == EMPTY
    {
      used, entries, files := 0, [], map[];
    }

    method Add(name: string, copy: Option<nat>)
      modifies this
      ensures Contents() == Next(old(Contents()), Copied(name, copy))
    {
      if used >= CONTENT_BUDGET {
        return;
      }
      Offer(name, copy);
    }

    method Offer(name: string, copy: Option<nat>)
      modifies this
      ensures Contents() == Offered(old(Contents()), name, copy)
    {
      if copy.Some? {
        files := files[name := copy.value];
      }
      var written := if copy.Some? then copy.value else 0;
      if written > 0 && used + written <= CONTENT_BUDGET {
        used := used + written;
        entries := entries + [Entry(name, written)];
      } else if written > 0 {
        files := files - {name};
      }
    }

    method AddListing(name: string, text: string, render: Render)
      modifies this
      ensures Contents() == Next(old(Contents()), Listed(name, text, render))
    {
      if used + Size(text) <= CONTENT_BUDGET {
        Write(name, render(text));
      }
    }

    method Write(name: string, rendered: string)
      modifies this
      ensures Contents() == Kept(old(Contents()), name, Size(rendered))
    {
      files := files[name := Size(rendered)];
      used := used + files[name];
      entries := entries + [Entry(name, files[name])];
    }

    method RunCommand(name: string, text: string, guarded: bool, render: Render)
      modifies this
      ensures Contents() == Next(old(Contents()), Ran(name, text, guarded, render))
    {
      if guarded && used >= CONTENT_BUDGET {
        return;
      }
      var budget := CONTENT_BUDGET - used;
      var encoded := if Size(text) > budget then Clip(text, CutLength(Size(text), budget)) else text;
      Write(name, render(encoded));
    }

    /** The dump, over the items it reaches in order. It reports itself failed when
        another exception cut it short or the cap was exceeded. */
    method Dump(items: seq<Item>, raised: bool) returns (failed: bool)
      modifies this
      ensures Contents() == After(old(Contents()), items)
      ensures failed <==> raised || used > CONTENT_BUDGET
    {
      for i := 0 to |items|
        invariant After(Contents(), items[i..]) == After(old(Contents()), items)
      {
        assert items[i..][0] == items[i] && items[i..][1..] == items[i + 1..];
        match items[i] {
          case Copied(name, copy) => Add(name, copy);
          case Probed(name, copy) => Offer(name, copy);
          case Listed(name, text, render) => AddListing(name, text, render);
          case Ran(name, text, guarded, render) => RunCommand(name, text, guarded, render);
        }
      }
      failed := raised || used > CONTENT_BUDGET;
    }
  }

  /** The ledger with one more file of this size, listed at the end of the index. */
  ghost predicate Gains(l: Ledger, m: Ledger, name: string, size: nat) {
    m.used == l.used + size && m.entries == l.entries + [Entry(name, size)] && m.files == l.files[name := size]
  }

  /** What fits is written: a copy while anything is left and it fits what is left, a
      probe if it fits, a listing if its text fits, a command always unless it is guarded
      and nothing is left. What does not fit, and what comes too late, changes nothing
      but that an offered file that is too large goes. */
  lemma WrittenExactly(l: Ledger, name: string, size: nat, text: string, render: Render)
    requires size > 0
    ensures var left := CONTENT_BUDGET - l.used;
            && (left > 0 && size <= left ==> Gains(l, Next(l, Copied(name, Some(size))), name, size))
            && (left > 0 && size > left ==> Next(l, Copied(name, Some(size))) == l.(files := l.files - {name}))
            && (left <= 0 ==> Next(l, Copied(name, Some(size))) == l)
            && (size <= left ==> Gains(l, Next(l, Probed(name, Some(size))), name, size))
            && (size > left ==> Next(l, Probed(name, Some(size))) == l.(files := l.files - {name}))
            && Next(l, Copied(name, None)) == Next(l, Probed(name, None)) == l
            && (Size(text) <= left ==> Gains(l, Next(l, Listed(name, text, render)), name, Size(render(text))))
            && (Size(text) > left ==> Next(l, Listed(name, text, render)) == l)
            && Gains(l, Next(l, Ran(name, text, false, render)), name, Size(render(Bounded(text, left))))
            && (left > 0 ==> Next(l, Ran(name, text, true, render)) == Next(l, Ran(name, text, false, render)))
            && (left <= 0 ==> Next(l, Ran(name, text, true, render)) == l)
  {
    hide Size, Bounded;
  }

  // ------------------------------------------------------------ conservation

  function Total(entries: seq<Entry>): nat {
    if entries == [] then 0 else Total(entries[..|entries| - 1]) + entries[|entries| - 1].size
  }

  ghost predicate Named(l: Ledger, name: string) {
    exists i :: 0 <= i < |l.entries| && l.entries[i].name == name
  }

  /** The bytes on disk. */
  ghost function Bytes(files: map<string, nat>): nat {
    if files == map[] then 0
    else
      assert files.Keys != {};
      var name :| name in files;
      files[name] + Bytes(files - {name})
  }

  lemma {:induction false} BytesWithout(files: map<string, nat>, name: string)
    requires name in files
    ensures Bytes(files) == files[name] + Bytes(files - {name})
    decreases |files|
  {
    var other :| other in files && Bytes(files) == files[other] + Bytes(files - {other});
    if other != name {
      BytesWithout(files - {other}, name);
      BytesWithout(files - {name}, other);
      assert files - {other} - {name} == files - {name} - {other};
    }
  }

  lemma BytesAdded(files: map<string, nat>, name: string, size: nat)
    requires name !in files
    ensures Bytes(files[name := size]) == Bytes(files) + size
  {
    BytesWithout(files[name := size], name);
    assert files[name := size] - {name} == files;
  }

  /** The index accounts for every byte: what was used is what is listed and what is
      on disk; the entries are files, once each, and only empty files go unlisted. */
  ghost predicate Balanced(l: Ledger) {
    && l.used == Total(l.entries) == Bytes(l.files)
    && (forall i, j | 0 <= i < j < |l.entries| :: l.entries[i].name != l.entries[j].name)
    && (forall i | 0 <= i < |l.entries| :: l.entries[i].name in l.files && l.files[l.entries[i].name] == l.entries[i].size)
    && (forall name | name in l.files && l.files[name] > 0 :: Named(l, name))
  }

  ghost predicate Fresh(l: Ledger, items: seq<Item>) {
    && (forall i, j | 0 <= i < j < |items| :: items[i].name != items[j].name)
    && (forall i | 0 <= i < |items| :: items[i].name !in l.files)
  }

  lemma NamedKept(l: Ledger, name: string, size: nat, other: string)
    ensures Named(Kept(l, name, size), other) <==> Named(l, other) || other == name
  {
    var m := Kept(l, name, size);
    if i :| 0 <= i < |m.entries| && m.entries[i].name == other {
      assert i < |l.entries| ==> l.entries[i].name == other;
    }
    if i :| 0 <= i < |l.entries| && l.entries[i].name == other {
      assert m.entries[i].name == other;
    }
    assert m.entries[|l.entries|].name == name;
  }

  lemma KeptAddsUp(l: Ledger, name: string, size: nat)
    requires name !in l.files
    ensures Total(Kept(l, name, size).entries) == Total(l.entries) + size
    ensures Bytes(Kept(l, name, size).files) == Bytes(l.files) + size
  {
    assert Kept(l, name, size).entries[..|l.entries|] == l.entries;
    BytesAdded(l.files, name, size);
  }

  lemma KeptBalanced(l: Ledger, name: string, size: nat)
    requires Balanced(l) && name !in l.files
    ensures Balanced(Kept(l, name, size))
  {
    var m := Kept(l, name, size);
    KeptAddsUp(l, name, size);
    hide Total, Bytes;
    forall i | 0 <= i < |l.entries| ensures m.entries[i] == l.entries[i] && m.entries[i].name != name {
      assert l.entries[i].name in l.files;
    }
    hide Named;
    forall other | other in m.files && m.files[other] > 0 ensures Named(m, other) {
      NamedKept(l, name, size, other);
    }
  }

  /** An empty file comes to lie beside what was kept. */
  function WithEmpty(l: Ledger, name: string): Ledger {
    l.(files := l.files[name := 0])
  }

  predicate WritesItself(item: Item) {
    item.Listed? || item.Ran?
  }

  /** The three ways an item can end under a name of its own. */
  lemma NextIs(l: Ledger, item: Item) returns (size: nat)
    requires item.name !in l.files
    ensures || Next(l, item) == l
            || (Next(l, item) == WithEmpty(l, item.name) && !WritesItself(item))
            || (Next(l, item) == Kept(l, item.name, size) && (size > 0 || WritesItself(item)))
  {
    hide Size, Bounded;
    assert l.files - {item.name} == l.files;
    var used := Next(l, item).used;
    size := if used >= l.used then used - l.used else 0;
  }

  lemma EmptyBalanced(l: Ledger, name: string)
    requires Balanced(l) && name !in l.files
    ensures Balanced(WithEmpty(l, name))
  {
    var m := WithEmpty(l, name);
    BytesAdded(l.files, name, 0);
    forall i | 0 <= i < |l.entries| ensures l.entries[i].name != name {
      assert l.entries[i].name in l.files;
    }
    assert forall other :: Named(l, other) <==> Named(m, other);
  }

  lemma NextBalanced(l: Ledger, item: Item)
    requires Balanced(l) && item.name !in l.files
    ensures Balanced(Next(l, item))
    ensures Next(l, item).files.Keys <= l.files.Keys + {item.name}
  {
    var size := NextIs(l, item);
    KeptBalanced(l, item.name, size);
    EmptyBalanced(l, item.name);
    hide Next, Balanced;
  }

  /** Every byte used belongs to a listed file and is on disk, and there is nothing
      else there but empty files. */
  lemma {:induction false} DumpBalanced(l: Ledger, items: seq<Item>)
    requires Balanced(l) && Fresh(l, items)
    ensures Balanced(After(l, items))
    decreases |items|
  {
    if items != [] {
      NextFresh(l, items);
      hide Balanced, Fresh, Next;
      DumpBalanced(Next(l, items[0]), items[1..]);
    }
  }

  lemma NextFresh(l: Ledger, items: seq<Item>)
    requires Balanced(l) && Fresh(l, items) && items != []
    ensures Balanced(Next(l, items[0])) && Fresh(Next(l, items[0]), items[1..])
  {
    NextBalanced(l, items[0]);
    hide Balanced, Next;
    var rest := items[1..];
    forall i | 0 <= i < |rest| ensures rest[i] == items[i + 1] && rest[i].name !in Next(l, items[0]).files {
      assert items[i + 1].name != items[0].name && items[i + 1].name !in l.files;
      assert items[i + 1].name !in l.files.Keys + {items[0].name};
    }
  }

  /** A file on disk is in the index exactly when it is not empty or the dump wrote
      it itself. */
  ghost predicate ListedRight(l: Ledger, item: Item) {
    item.name in l.files ==>
      (Named(l, item.name) <==> l.files[item.name] > 0 || WritesItself(item))
  }

  lemma NextListed(l: Ledger, item: Item, other: Item)
    requires Balanced(l) && item.name !in l.files
    requires other == item || (other.name != item.name && ListedRight(l, other))
    ensures ListedRight(Next(l, item), other)
  {
    assert !Named(l, item.name);
    var size := NextIs(l, item);
    NamedKept(l, item.name, size, other.name);
    assert Named(WithEmpty(l, item.name), other.name) <==> Named(l, other.name);
    hide Next, Balanced, Named;
  }

  lemma {:induction false} StaysListed(l: Ledger, items: seq<Item>, item: Item)
    requires Balanced(l) && Fresh(l, items) && ListedRight(l, item)
    requires forall i | 0 <= i < |items| :: items[i].name != item.name
    ensures ListedRight(After(l, items), item)
    decreases |items|
  {
    if items != [] {
      NextFresh(l, items);
      NextListed(l, items[0], item);
      hide Balanced, Fresh, Next, ListedRight;
      StaysListed(Next(l, items[0]), items[1..], item);
    }
  }

  /** For each item of a dump: what is kept of it is listed exactly when it has bytes,
      or is a listing or a command's output. */
  lemma {:induction false} ListedExactly(l: Ledger, items: seq<Item>, k: nat)
    requires Balanced(l) && Fresh(l, items) && k < |items|
    ensures ListedRight(After(l, items), items[k])
    decreases |items|
  {
    NextFresh(l, items);
    NextListed(l, items[0], items[0]);
    assert forall i | 0 <= i < |items[1..]| :: items[1..][i] == items[i + 1];
    hide Balanced, Next, ListedRight;
    var next, rest := Next(l, items[0]), items[1..];
    if k == 0 {
      StaysListed(next, rest, items[0]);
    } else {
      ListedExactly(next, rest, k - 1);
    }
  }

  /** The copy of an empty file stays on disk and is not listed. */
  lemma EmptyCopyUnlisted(name: string)
    ensures After(EMPTY, [Copied(name, Some(0))]) == Ledger(0, [], map[name := 0])
  {
  }

  // ------------------------------------------------------------------ the cap

  /** What is left for this item does not hold what is written for it. */
  predicate Overshoots(l: Ledger, item: Item) {
    !Skipped(l, item) &&
      match item
      case Listed(_, text, render) => Size(render(text)) > CONTENT_BUDGET - l.used
      case Ran(_, text, _, render) => Size(render(Bounded(text, CONTENT_BUDGET - l.used))) > CONTENT_BUDGET - l.used
      case _ => false
  }

  predicate EverOvershoots(l: Ledger, items: seq<Item>)
    decreases |items|
  {
    items != [] && (Overshoots(l, items[0]) || EverOvershoots(Next(l, items[0]), items[1..]))
  }

  lemma {:induction false} UsedGrows(l: Ledger, items: seq<Item>)
    ensures l.used <= After(l, items).used
    decreases |items|
  {
    if items != [] {
      UsedGrows(Next(l, items[0]), items[1..]);
    }
  }

  /** Whatever is redacted: the dump stays within its cap exactly when no listing or
      command it writes is larger, as written, than what is left at that moment. */
  lemma {:induction false} CapExactly(l: Ledger, items: seq<Item>)
    requires l.used <= CONTENT_BUDGET
    ensures After(l, items).used <= CONTENT_BUDGET <==> !EverOvershoots(l, items)
    decreases |items|
  {
    if items != [] {
      var next := Next(l, items[0]);
      assert next.used <= CONTENT_BUDGET <==> !Overshoots(l, items[0]);
      if next.used <= CONTENT_BUDGET {
        CapExactly(next, items[1..]);
      } else {
        UsedGrows(next, items[1..]);
      }
    }
  }

  // Two things make an item overshoot: redaction that lengthens its text, and a
  // cut inside a character.

  predicate Lengthened(render: Render, text: string) {
    Size(render(text)) > Size(text)
  }

  predicate Lengthens(l: Ledger, item: Item) {
    !Skipped(l, item) &&
      match item
      case Listed(_, text, render) => Lengthened(render, text)
      case Ran(_, text, _, render) => Lengthened(render, Bounded(text, CONTENT_BUDGET - l.used))
      case _ => false
  }

  predicate EverLengthens(l: Ledger, items: seq<Item>)
    decreases |items|
  {
    items != [] && (Lengthens(l, items[0]) || EverLengthens(Next(l, items[0]), items[1..]))
  }

  /** A command's output is cut inside a character, leaving one or two bytes of it. */
  predicate Splits(l: Ledger, item: Item) {
    && item.Ran? && !Skipped(l, item) && l.used <= CONTENT_BUDGET
    && Size(item.text) > CONTENT_BUDGET - l.used
    && Leftover(item.text, CONTENT_BUDGET - l.used) in {1, 2}
  }

  predicate EverSplits(l: Ledger, items: seq<Item>)
    decreases |items|
  {
    items != [] && (Splits(l, items[0]) || EverSplits(Next(l, items[0]), items[1..]))
  }

  lemma OvershootCause(l: Ledger, item: Item)
    requires l.used <= CONTENT_BUDGET && Overshoots(l, item)
    ensures Lengthens(l, item) || Splits(l, item)
  {
    if item.Ran? && Size(item.text) > CONTENT_BUDGET - l.used {
      BoundedExactly(item.text, CONTENT_BUDGET - l.used);
    }
  }

  /** By how much a split misses the cap: the bytes the replacement character adds,
      and what redaction then adds or saves. */
  lemma SplitExceeds(l: Ledger, item: Item)
    requires Splits(l, item)
    ensures var cut := Bounded(item.text, CONTENT_BUDGET - l.used);
            Next(l, item).used
            == CONTENT_BUDGET + (3 - Leftover(item.text, CONTENT_BUDGET - l.used)) + (Size(item.render(cut)) - Size(cut))
  {
    ClipSize(item.text, CONTENT_BUDGET - l.used);
  }

  /** A run in which no text is lengthened and no character split keeps to the cap. */
  lemma {:induction false} DumpWithin(l: Ledger, items: seq<Item>)
    requires l.used <= CONTENT_BUDGET && !EverLengthens(l, items) && !EverSplits(l, items)
    ensures After(l, items).used <= CONTENT_BUDGET
    decreases |items|
  {
    if items != [] {
      if Overshoots(l, items[0]) {
        OvershootCause(l, items[0]);
      }
      assert Next(l, items[0]).used <= CONTENT_BUDGET;
      DumpWithin(Next(l, items[0]), items[1..]);
    }
  }

  /** Redaction changes the size of what this item writes. */
  predicate Resizes(l: Ledger, item: Item) {
    !Skipped(l, item) &&
      match item
      case Listed(_, text, render) => Size(render(text)) != Size(text)
      case Ran(_, text, _, render) =>
        var cut := Bounded(text, CONTENT_BUDGET - l.used);
        Size(render(cut)) != Size(cut)
      case _ => false
  }

  predicate EverResizes(l: Ledger, items: seq<Item>)
    decreases |items|
  {
    items != [] && (Resizes(l, items[0]) || EverResizes(Next(l, items[0]), items[1..]))
  }

  /** In a run in which redaction changes no size, splitting is the only cause. */
  lemma {:induction false} CapBySplitsExactly(l: Ledger, items: seq<Item>)
    requires l.used <= CONTENT_BUDGET && !EverResizes(l, items)
    ensures After(l, items).used <= CONTENT_BUDGET <==> !EverSplits(l, items)
    decreases |items|
  {
    if items != [] {
      var next := Next(l, items[0]);
      if Splits(l, items[0]) {
        SplitExceeds(l, items[0]);
        UsedGrows(next, items[1..]);
      } else {
        if Overshoots(l, items[0]) {
          OvershootCause(l, items[0]);
        }
        assert next.used <= CONTENT_BUDGET;
        CapBySplitsExactly(next, items[1..]);
      }
    }
  }

  lemma {:induction false} SizeConcat(a: string, b: string)
    ensures Size(a + b) == Size(a) + Size(b)
  {
    if a == [] {
      assert a + b == b;
    } else {
      assert (a + b)[1..] == a[1..] + b;
      SizeConcat(a[1..], b);
    }
  }

  const REDACTED := "\"[REDACTED]\""

  /** Redacting a value that is shorter than its replacement, as in token:1,
      lengthens the text around it. */
  lemma ShortSecretLengthens(render: Render, head: string, tail: string)
    requires render(head + "1" + tail) == head + REDACTED + tail
    ensures Size(render(head + "1" + tail)) == Size(head + "1" + tail) + 11
  {
    SizeConcat(head + "1", tail);
    SizeConcat(head, "1");
    SizeConcat(head + REDACTED, tail);
    SizeConcat(head, REDACTED);
    assert Size("1") == 1 && Size(REDACTED) == 12;
  }

  /** Such a text misses the cap when what is left just holds it before redaction. */
  lemma RedactionExceeds(render: Render, text: string)
    requires Lengthened(render, text) && Size(text) <= CONTENT_BUDGET
    ensures After(EMPTY, [Copied("state", Some(CONTENT_BUDGET - Size(text))), Ran("output", text, false, render)]).used
            == CONTENT_BUDGET + (Size(render(text)) - Size(text))
  {
    var room := CONTENT_BUDGET - Size(text);
    var first, second := Copied("state", Some(room)), Ran("output", text, false, render);
    AfterTwo(EMPTY, first, second);
    hide Size, After, Clip;
    var l := Next(EMPTY, first);
    assert l.used == room;
    assert Bounded(text, CONTENT_BUDGET - l.used) == text;
    hide Bounded;
    assert Next(l, second).used == room + Size(render(text));
  }

  /** Nothing to redact. */
  function Unchanged(): Render {
    text => text
  }

  /** A text of n one-byte characters. */
  function Plain(n: nat): string {
    if n == 0 then [] else ['x'] + Plain(n - 1)
  }

  lemma {:induction false} PlainText(n: nat, tail: string, count: nat)
    ensures Size(Plain(n) + tail) == n + Size(tail)
    ensures Leftover(Plain(n) + tail, count) == if count <= n then 0 else Leftover(tail, count - n)
  {
    var text := Plain(n) + tail;
    if n == 0 {
      assert text == tail;
    } else {
      assert text[1..] == Plain(n - 1) + tail && Width(text[0]) == 1;
      PlainText(n - 1, tail, if count == 0 then 0 else count - 1);
    }
  }

  /** One byte short of the cap, then a two-byte character. */
  function Ragged(room: nat): string {
    Plain(room) + "\U{E9}"
  }

  lemma RaggedClip(room: nat)
    ensures Size(Ragged(room)) == room + 2 && Size(Clip(Ragged(room), room + 1)) == room + 3
  {
    assert Size("\U{E9}") == 2 && Leftover("\U{E9}", 1) == 1;
    PlainText(room, "\U{E9}", room + 1);
    ClipSize(Ragged(room), room + 1);
  }

  lemma PlainClip(n: nat, count: nat)
    requires count <= n
    ensures Size(Plain(n)) == n && Size(Clip(Plain(n), count)) == count
  {
    assert Plain(n) + "" == Plain(n);
    PlainText(n, "", count);
    ClipSize(Plain(n), count);
  }

  lemma AfterTwo(l: Ledger, first: Item, second: Item)
    ensures After(l, [first, second]) == Next(Next(l, first), second)
  {
    var l' := Next(l, first);
    assert [first, second][1..] == [second] && [second][1..] == [];
    assert After(l', [second]) == After(Next(l', second), []);
  }

  /** How far the cap can be missed: a command that ends inside a character leaves a
      negative budget, and the next command that is not guarded then keeps all but
      its last bytes, however many there are. */
  lemma CapMissedBy(excess: nat, room: nat)
    requires room == CONTENT_BUDGET - 1
    ensures After(EMPTY,
                  [Ran("platform", Ragged(room), false, Unchanged()), Ran("project", Plain(excess + 2), false, Unchanged())]).used
            == CONTENT_BUDGET + 2 + excess
  {
    RaggedClip(room);
    PlainClip(excess + 2, excess);
    var first, second := Ran("platform", Ragged(room), false, Unchanged()), Ran("project", Plain(excess + 2), false, Unchanged());
    AfterTwo(EMPTY, first, second);
    hide Ragged, Plain, Size, Clip, After;
    assert Bounded(first.text, CONTENT_BUDGET) == Clip(first.text, room + 1);
    var l := Next(EMPTY, first);
    assert l.used == CONTENT_BUDGET + 2;
    assert CONTENT_BUDGET - l.used == -2;
    assert Bounded(second.text, -2) == Clip(second.text, excess);
    assert Next(l, second).used == l.used + excess;
  }

  // --------------------------------------------------------------- the index

  const EXCERPT := 20_000
  const TITLE := "# Platform state dump\n\nJourney git revision: "
  const FAILURE_HEAD := "\n\nFirst failure: "
  const FILES_HEAD := "\n\nFiles:\n"
  const NO_FILES := "- No platform files or commands were available."

  function EntryLine(entry: Entry): string {
    "- `" + entry.name + "` (" + Decimal(entry.size) + " bytes)"
  }

  /** The lines of the index; notes are those that stand for no file. */
  function IndexLines(l: Ledger, notes: seq<string>): seq<string> {
    seq(|l.entries|, i requires 0 <= i < |l.entries| => EntryLine(l.entries[i])) + notes
  }

  /** "\n".join(lines) */
  function Listing(lines: seq<string>): string {
    if lines == [] then ""
    else if |lines| == 1 then lines[0]
    else Listing(lines[..|lines| - 1]) + "\n" + lines[|lines| - 1]
  }

  function Excerpt(failure: string): string {
    if |failure| <= EXCERPT then failure else failure[..EXCERPT]
  }

  /** What index.md says, before it is redacted. */
  function Index(l: Ledger, notes: seq<string>, revision: string, failure: string): string {
    TITLE + revision + FAILURE_HEAD + Excerpt(failure) + FILES_HEAD
    + (if IndexLines(l, notes) == [] then NO_FILES else Listing(IndexLines(l, notes))) + "\n"
  }

  lemma IndexHoldsExcerpt(l: Ledger, notes: seq<string>, revision: string, failure: string)
    ensures Size(Index(l, notes, revision, failure)) > Size(Excerpt(failure))
  {
    var list := if IndexLines(l, notes) == [] then NO_FILES else Listing(IndexLines(l, notes));
    var head := TITLE + revision + FAILURE_HEAD;
    SizeConcat(head + Excerpt(failure) + FILES_HEAD + list, "\n");
    SizeConcat(head + Excerpt(failure) + FILES_HEAD, list);
    SizeConcat(head + Excerpt(failure), FILES_HEAD);
    SizeConcat(head, Excerpt(failure));
    assert Size("\n") == 1;
  }

  /** The room set aside for the index: a dump that kept to its content budget is
      within its maximum, whatever it used, exactly when the index as written takes
      no more than that room. */
  lemma ReserveExactly(index: string, render: Render)
    ensures (forall l: Ledger | l.used <= CONTENT_BUDGET :: l.used + Size(render(index)) <= 5_242_880)
       <==> Size(render(index)) <= 65_536
  {
    assert Ledger(CONTENT_BUDGET, [], map[]).used <= CONTENT_BUDGET;
  }

  function Repeated(c: char, n: nat): string {
    if n == 0 then [] else [c] + Repeated(c, n - 1)
  }

  lemma {:induction false} RepeatedSize(c: char, n: nat)
    ensures |Repeated(c, n)| == n && Size(Repeated(c, n)) == n * Width(c)
  {
    if n > 0 {
      RepeatedSize(c, n - 1);
      assert Repeated(c, n)[1..] == Repeated(c, n - 1);
    }
  }

  /** It is not: an excerpt is limited in characters, and of four-byte characters it
      takes 80,000 bytes. */
  lemma IndexExceedsReserve(l: Ledger, notes: seq<string>, revision: string, length: nat)
    requires length == EXCERPT && l.used == CONTENT_BUDGET
    ensures l.used + Size(Index(l, notes, revision, Repeated('\U{1F600}', length))) > 5_242_880
  {
    RepeatedSize('\U{1F600}', length);
    IndexHoldsExcerpt(l, notes, revision, Repeated('\U{1F600}', length));
    hide Repeated, Index, Size;
  }
}
