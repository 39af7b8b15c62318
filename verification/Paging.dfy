/**
 Two-level page tables as a flat map from pages to frames; see section 4.3 of volume 3A
 of the Intel 64 and IA-32 Architectures Software Developer's Manual. What the
 processor caches is not part of the model.
 */
module PageTables {

  type Address = a: nat | a < 0x1_0000_0000

  const PAGES := 0x10_0000

  /** A frame number has 20 bits. */
  type Frame = n: nat | n < 0x10_0000

  /** An entry of a page table, with the flags that are used. */
  datatype Page = Page(present: bool, rw: bool, user: bool, frame: Frame)

  const BLANK := Page(false, false, false, 0)

  /** What a mapped page is mapped to. */
  datatype Mapping = Mapping(frame: Frame, rw: bool, user: bool)

  /** The page an address lies in. */
  function PageOf(a: Address): (page: nat)
    ensures page < PAGES
  {
    a / 0x1000
  }

  /** The mappings that entries stand for. */
  ghost function Mapped(entries: map<nat, Page>): map<nat, Mapping> {
    map page | page in entries && entries[page].present ::
        Mapping(entries[page].frame, entries[page].rw, entries[page].user)
  }

  /** One entry changed is one page mapped or unmapped. */
  lemma OneEntryChanged(entries: map<nat, Page>, page: nat, p: Page)
    ensures Mapped(entries[page := p]) ==
              if p.present then Mapped(entries)[page := Mapping(p.frame, p.rw, p.user)] else Mapped(entries) - {page}
  {
  }

  /** Where a flat map takes an address: to its frame, at the same offset, or to 0. */
  ghost function Translate(flat: map<nat, Mapping>, a: Address): Address {
    if PageOf(a) in flat then flat[PageOf(a)].frame * 0x1000 + a % 0x1000 else 0
  }

  /**
     Once `virt` is mapped to `phys` every address of its page goes to the frame of
     `phys`, and no other address moves.
   */
  lemma MappedPageMoves(flat: map<nat, Mapping>, virt: Address, phys: Address, rw: bool, user: bool, a: Address)
    ensures Translate(flat[PageOf(virt) := Mapping(phys / 0x1000, rw, user)], a) ==
              if a / 0x1000 == virt / 0x1000 then phys - phys % 0x1000 + a % 0x1000 else Translate(flat, a)
  {
    assert phys == phys / 0x1000 * 0x1000 + phys % 0x1000;
  }

  /**
     The translation 0 does not say that a page is not mapped: the first byte of a page
     mapped to frame 0 has it too.
   */
  lemma ZeroIsAmbiguous(flat: map<nat, Mapping>, a: Address)
    ensures Translate(flat, a) == 0 <==> PageOf(a) !in flat || (flat[PageOf(a)].frame == 0 && a % 0x1000 == 0)
  {
  }

  /** The directory index and the table index of an address are those of its page. */
  lemma Indices(a: Address)
    ensures a / 0x40_0000 == PageOf(a) / 1024 < 1024
    ensures PageOf(a) == PageOf(a) / 1024 * 1024 + PageOf(a) % 1024
  {
  }

  class PageTable {
    const pages: array<Page>

    constructor ()
      ensures pages.Length == 1024 && fresh(pages) && forall i :: 0 <= i < 1024 ==> pages[i] == BLANK
    {
      pages := new Page[1024](_ => BLANK);
    }
  }

  class PageDirectory {
    const tablesPhysical: array<Address>
    const tables: array<PageTable?>

    /** Each page table is a whole one, used once, and marked present. */
    ghost predicate Valid()
      reads tables, tablesPhysical
    {
      && tables.Length == 1024 && tablesPhysical.Length == 1024
      && (forall i :: 0 <= i < 1024 && tables[i] != null ==> tables[i].pages.Length == 1024)
      && (forall i, j :: 0 <= i < j < 1024 && tables[i] != null && tables[j] != null ==>
          tables[i].pages != tables[j].pages)
      && (forall i :: 0 <= i < 1024 ==> (tables[i] != null <==> tablesPhysical[i] % 2 == 1))
    }

    /** The entry for a page; blank if there is no table for it. */
    ghost function Entry(page: nat): Page
      requires Valid() && page < PAGES
      reads tables, tablesPhysical, set i | 0 <= i < tables.Length && tables[i] != null :: tables[i].pages
    {
      if tables[page / 1024] == null then BLANK else tables[page / 1024].pages[page % 1024]
    }

    ghost function Entries(): map<nat, Page>
      requires Valid()
      reads tables, tablesPhysical, set i | 0 <= i < tables.Length && tables[i] != null :: tables[i].pages
    {
      map page | 0 <= page < PAGES :: Entry(page)
    }

    /** The pages that are mapped. */
    ghost function Flat(): map<nat, Mapping>
      requires Valid()
      reads tables, tablesPhysical, set i | 0 <= i < tables.Length && tables[i] != null :: tables[i].pages
    {
      Mapped(Entries())
    }

    /** The arrays of the tables. */
    ghost function Tables(): set<array<Page>>
      reads tables
    {
      set i | 0 <= i < tables.Length && tables[i] != null :: tables[i].pages
    }

    constructor ()
      ensures Valid() && Flat() == map[] && fresh(tables) && fresh(tablesPhysical)
    {
      tablesPhysical := new Address[1024](_ => 0);
      tables := new PageTable?[1024](_ => null);
    }

    method SetTable(index: nat, table: PageTable, tablePhysical: Address)
      requires index < tables.Length && index < tablesPhysical.Length
      modifies tables, tablesPhysical
      ensures tables[..] == old(tables[..])[index := table]
      ensures tablesPhysical[..] == old(tablesPhysical[..])[index := tablePhysical]
    {
      tablesPhysical[index] := tablePhysical;
      tables[index] := table;
    }

    /** The entry of a page written through a pointer to it; with no table used twice no other page's changes. */
    method WriteEntry(table: PageTable, ptindex: nat, p: Page, ghost page: nat)
      requires Valid() && page < PAGES && tables[page / 1024] == table && ptindex == page % 1024
      modifies table.pages
      ensures Valid() && Entries() == old(Entries())[page := p]
      ensures table.pages.Length == 1024 && table.pages[ptindex] == p
    {
      table.pages[ptindex] := p;
      assert forall q :: 0 <= q < PAGES && q != page ==> Entry(q) == old(Entry(q));
    }

    /** A blank table where there was none maps nothing. */
    method AddTable(index: nat, physicalPageTableAddress: Address)
      requires Valid() && index < 1024 && tables[index] == null
      modifies tables, tablesPhysical
      ensures Valid() && tables[index] != null && fresh(tables[index].pages)
      ensures forall i :: 0 <= i < 1024 && i != index ==> tables[i] == old(tables[i])
      ensures tablesPhysical[index] / 4 == physicalPageTableAddress / 4 && tablesPhysical[index] % 4 == 3
      ensures Entries() == old(Entries())
    {
      var t := new PageTable();
      Or3IsOdd(physicalPageTableAddress);
      SetTable(index, t, Or3(physicalPageTableAddress));
      assert forall i :: 0 <= i < 1024 && tables[i] != null && i != index ==> tables[i].pages != t.pages;
      assert forall q :: 0 <= q < PAGES ==> Entry(q) == old(Entry(q));
    }

    /** A table made for the directory is entered with its physical address; `at` is where it was put. */
    method GetTable(index: nat, assign: bool, paging: Paging, at: Address) returns (table: PageTable?)
      requires Valid() && index < 1024 && paging.currentDirectory.Valid()
      modifies tables, tablesPhysical
      ensures Valid() && table == tables[index] && (table != null ==> table.pages.Length == 1024)
      ensures forall i :: 0 <= i < 1024 ==> tables[i] == if i == index then table else old(tables[i])
      ensures old(tables[index]) != null || !assign ==> table == old(tables[index])
      ensures old(tables[index]) == null && assign ==> table != null && fresh(table.pages)
      ensures old(tables[index]) == null && assign ==>
                && tablesPhysical[index] / 4 == old(paging.currentDirectory.Physical(at)) / 4
                && tablesPhysical[index] % 4 == 3
      ensures Entries() == old(Entries()) && fresh(Tables() - old(Tables()))
    {
      hide Physical, Flat, Entries, Entry, Or3;
      if assign && tables[index] == null {
        var physicalPageTableAddress := paging.GetPhysicalAddress(at);
        AddTable(index, physicalPageTableAddress);
      }
      table := tables[index];
    }

    /** Where an address is, or 0. */
    ghost function Physical(virtualaddr: Address): Address
      requires Valid()
      reads tables, tablesPhysical, set i | 0 <= i < tables.Length && tables[i] != null :: tables[i].pages
    {
      Translate(Flat(), virtualaddr)
    }
  }

  /** `a | 0x3`. */
  function Or3(a: Address): Address { a - a % 4 + 3 }

  lemma Or3IsOdd(a: Address)
    ensures Or3(a) % 2 == 1 && Or3(a) / 4 == a / 4 && Or3(a) % 4 == 3
  {
  }

  /** What a directory entry shows the processor: the table's frame, present and writable, and no other flag. */
  lemma TableEntry(table: Address, entry: Address)
    requires table % 0x1000 == 0 && entry / 4 == table / 4 && entry % 4 == 3
    ensures entry / 0x1000 == table / 0x1000 && entry % 2 == 1 && entry / 2 % 2 == 1 && entry % 0x1000 / 4 == 0
  {
    var q := table / 0x1000;
    assert table == q * 0x1000;
    assert table / 4 == q * 0x400;
    assert entry == q * 0x1000 + 3;
  }

  class Paging {
    var currentDirectory: PageDirectory

    constructor (directory: PageDirectory)
      ensures currentDirectory == directory
    {
      currentDirectory := directory;
    }

    method GetPhysicalAddress(virtualaddr: Address) returns (physical: Address)
      requires currentDirectory.Valid()
      ensures physical == currentDirectory.Physical(virtualaddr)
    {
      var pdindex := virtualaddr / 0x40_0000;
      var ptindex := (virtualaddr / 0x1000) % 1024;
      var offset := virtualaddr % 0x1000;
      var pt := currentDirectory.tables[pdindex];
      if pt == null {
        return 0;
      }
      var p := pt.pages[ptindex];
      if !p.present {
        return 0;
      }
      physical := p.frame * 0x1000 + offset;
    }

    method MapAddress(virt: Address, phys: Address, readwrite: bool, usermode: bool, at: Address)
      requires currentDirectory.Valid()
      modifies currentDirectory.tables, currentDirectory.tablesPhysical, currentDirectory.Tables()
      ensures currentDirectory.Valid()
      ensures currentDirectory.Flat() ==
                old(currentDirectory.Flat())[PageOf(virt) := Mapping(phys / 0x1000, readwrite, usermode)]
      ensures currentDirectory.Entries() ==
                old(currentDirectory.Entries())[PageOf(virt) := Page(true, readwrite, usermode, phys / 0x1000)]
      ensures var t := currentDirectory.tables[virt / 0x40_0000];
              t != null && t.pages[virt / 0x1000 % 1024] == Page(true, readwrite, usermode, phys / 0x1000)
      ensures fresh(currentDirectory.Tables() - old(currentDirectory.Tables()))
    {
      hide PageDirectory.Entry, PageDirectory.Entries, Mapped;
      var pdindex := virt / 0x40_0000;
      var ptindex := (virt / 0x1000) % 1024;
      Indices(virt);
      ghost var entries := currentDirectory.Entries();
      var t := currentDirectory.GetTable(pdindex, true, this, at);
      var p := t.pages[ptindex];
      p := p.(present := true, frame := phys / 0x1000, rw := readwrite, user := usermode);
      currentDirectory.WriteEntry(t, ptindex, p, PageOf(virt));
      OneEntryChanged(entries, PageOf(virt), p);
    }

    method UnmapAddress(virt: Address, at: Address)
      requires currentDirectory.Valid()
      modifies currentDirectory.tables, currentDirectory.tablesPhysical, currentDirectory.Tables()
      ensures currentDirectory.Valid()
      ensures currentDirectory.Flat() == old(currentDirectory.Flat()) - {PageOf(virt)}
      ensures var t := currentDirectory.tables[virt / 0x40_0000];
              t != null && !t.pages[virt / 0x1000 % 1024].present
      ensures fresh(currentDirectory.Tables() - old(currentDirectory.Tables()))
      ensures currentDirectory.Entries() == old(currentDirectory.Entries())[PageOf(virt) :=
                old(currentDirectory.Entry(PageOf(virt))).(present := false, frame := 0, rw := false)]
    {
      hide Mapped;
      var pdindex := virt / 0x40_0000;
      var ptindex := (virt / 0x1000) % 1024;
      Indices(virt);
      ghost var entries := currentDirectory.Entries();
      var t := currentDirectory.GetTable(pdindex, true, this, at);
      var p := t.pages[ptindex];
      p := p.(present := false, frame := 0, rw := false);
      currentDirectory.WriteEntry(t, ptindex, p, PageOf(virt));
      OneEntryChanged(entries, PageOf(virt), p);
    }

    /** Mapping a page and unmapping it again unmaps it; a page that was not mapped leaves the flat map as it was. */
    method MapThenUnmap(virt: Address, phys: Address, readwrite: bool, usermode: bool, at: Address)
      requires currentDirectory.Valid()
      modifies currentDirectory.tables, currentDirectory.tablesPhysical, currentDirectory.Tables()
      ensures currentDirectory.Valid()
      ensures currentDirectory.Flat() == old(currentDirectory.Flat()) - {PageOf(virt)}
      ensures PageOf(virt) !in old(currentDirectory.Flat()) ==> currentDirectory.Flat() == old(currentDirectory.Flat())
    {
      hide PageDirectory.Valid, PageDirectory.Flat, PageDirectory.Entries, PageDirectory.Entry;
      MapAddress(virt, phys, readwrite, usermode, at);
      UnmapAddress(virt, at);
    }

    method IsPresent(virt: Address) returns (present: bool)
      requires currentDirectory.Valid()
      ensures present <==> PageOf(virt) in currentDirectory.Flat()
    {
      var pdindex := virt / 0x40_0000;
      var ptindex := (virt / 0x1000) % 1024;
      var t := currentDirectory.tables[pdindex];
      if t != null && currentDirectory.tablesPhysical[pdindex] % 2 == 1 {
        present := t.pages[ptindex].present;
      } else {
        present := false;
      }
    }
  }
}
