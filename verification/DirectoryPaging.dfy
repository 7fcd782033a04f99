/**
 Reading a directory in pages by cookie, as Treaddir in src/ninep_protocol.rs does:
 whatever else changes between pages, an entry that stays is listed exactly once.
 */
module DirectoryPaging {
  import opened Wrappers
  import opened Namespace

  datatype Listed = Listed(name: Name, inode: Id, cookie: nat)

  const ENTRY_OVERHEAD: nat := 24

  function EntrySize(e: Listed): nat { ENTRY_OVERHEAD + |e.name| }

  /** The entries of a directory, each once, in cookie order. */
  ghost predicate IsListing(entries: map<Name, Entry>, list: seq<Listed>) {
    && (forall i :: 0 <= i < |list| ==>
          list[i].name in entries && entries[list[i].name] == Entry(list[i].inode, list[i].cookie))
    && (forall n :: n in entries ==> Listed(n, entries[n].inode, entries[n].cookie) in list)
    && Ascending(list)
  }

  ghost predicate Ascending(list: seq<Listed>) {
    forall i, j :: 0 <= i < j < |list| ==> list[i].cookie < list[j].cookie
  }

  method Place(list: seq<Listed>, e: Listed) returns (r: seq<Listed>)
    requires Ascending(list) && forall i :: 0 <= i < |list| ==> list[i].cookie != e.cookie
    ensures Ascending(r) && forall x :: x in r <==> x in list || x == e
  {
    var i := |list|;
    while i > 0 && list[i - 1].cookie > e.cookie
      invariant 0 <= i <= |list| && forall j :: i <= j < |list| ==> list[j].cookie > e.cookie
    {
      i := i - 1;
    }
    assert forall j :: 0 <= j < i ==> list[j].cookie <= list[i - 1].cookie;
    r := list[..i] + [e] + list[i..];
    Placed(list, e, i);
  }

  lemma Placed(list: seq<Listed>, e: Listed, i: nat)
    requires i <= |list| && Ascending(list)
    requires forall j :: 0 <= j < i ==> list[j].cookie < e.cookie
    requires forall j :: i <= j < |list| ==> e.cookie < list[j].cookie
    ensures Ascending(list[..i] + [e] + list[i..])
    ensures forall x :: x in list[..i] + [e] + list[i..] <==> x in list || x == e
  {
    var r := list[..i] + [e] + list[i..];
    assert forall j :: 0 <= j < |r| ==> r[j] == if j < i then list[j] else if j == i then e else list[j - 1];
    assert list == list[..i] + list[i..];
  }

  /** directory_entries: collect and sort by cookie. */
  method DirectoryEntries(entries: map<Name, Entry>) returns (list: seq<Listed>)
    requires forall n, o :: n in entries && o in entries && entries[n].cookie == entries[o].cookie ==> n == o
    ensures IsListing(entries, list)
  {
    list := [];
    var rest := entries.Keys;
    while rest != {}
      invariant rest <= entries.Keys && Ascending(list)
      invariant forall x :: x in list <==>
                  x.name in entries && x.name !in rest && entries[x.name] == Entry(x.inode, x.cookie)
    {
      var n :| n in rest;
      list := Place(list, Listed(n, entries[n].inode, entries[n].cookie));
      rest := rest - {n};
    }
  }

  // --------------------------------------------------------------------------- pages

  function PageSize(page: seq<Listed>): nat
    decreases |page|
  {
    if page == [] then 0 else PageSize(page[..|page| - 1]) + EntrySize(page[|page| - 1])
  }

  /** One reply: entries past the offset, in order, until one does not fit. */
  function Fill(list: seq<Listed>, offset: nat, maximum: nat, page: seq<Listed>): seq<Listed>
    decreases |list|
  {
    if list == [] then page
    else if list[0].cookie <= offset then Fill(list[1..], offset, maximum, page)
    else if PageSize(page) + EntrySize(list[0]) > maximum then page
    else Fill(list[1..], offset, maximum, page + [list[0]])
  }

  method ReadDirectory(list: seq<Listed>, offset: nat, maximum: nat) returns (page: seq<Listed>)
    ensures page == Fill(list, offset, maximum, [])
  {
    page := [];
    var size := 0;
    for i := 0 to |list|
      invariant size == PageSize(page) && Fill(list, offset, maximum, []) == Fill(list[i..], offset, maximum, page)
    {
      assert list[i..][1..] == list[i + 1..];
      if list[i].cookie > offset {
        if size + EntrySize(list[i]) > maximum { return; }
        assert (page + [list[i]])[..|page|] == page;
        page := page + [list[i]];
        size := size + EntrySize(list[i]);
      }
    }
  }

  /** Before the rest of the listing: an ascending page past the offset. */
  ghost predicate PageUpTo(list: seq<Listed>, offset: nat, page: seq<Listed>) {
    && Ascending(page) && (forall i :: 0 <= i < |page| ==> page[i].cookie > offset)
    && (forall i, j :: 0 <= i < |page| && 0 <= j < |list| ==> page[i].cookie < list[j].cookie)
  }

  /** A page is ascending, past the offset, and made of listed entries. */
  lemma {:induction false} FillShape(list: seq<Listed>, offset: nat, maximum: nat, page: seq<Listed>)
    requires Ascending(list) && PageUpTo(list, offset, page)
    ensures var r := Fill(list, offset, maximum, page);
            Ascending(r) && page <= r && forall e :: e in r ==> e.cookie > offset && (e in page || e in list)
    decreases |list|
  {
    if list != [] {
      var rest := list[1..];
      assert list == [list[0]] + rest;
      if list[0].cookie <= offset {
        FillShape(rest, offset, maximum, page);
      } else if PageSize(page) + EntrySize(list[0]) <= maximum {
        FillShape(rest, offset, maximum, page + [list[0]]);
      }
    }
  }

  /** It skips nothing up to its last cookie. */
  lemma {:induction false} FillSkipsNothing(list: seq<Listed>, offset: nat, maximum: nat, page: seq<Listed>, e: Listed)
    requires Ascending(list) && PageUpTo(list, offset, page) && e in list && e.cookie > offset
    ensures var r := Fill(list, offset, maximum, page);
            r != [] && e.cookie <= r[|r| - 1].cookie ==> e in r
    decreases |list|
  {
    var j :| 0 <= j < |list| && list[j] == e;
    var rest := list[1..];
    if list[0].cookie <= offset {
      assert e == rest[j - 1];
      FillSkipsNothing(rest, offset, maximum, page, e);
    } else if PageSize(page) + EntrySize(list[0]) > maximum {
      assert page != [] ==> page[|page| - 1].cookie < list[j].cookie;
    } else if j == 0 {
      FirstIsListed(list, offset, maximum, page);
    } else {
      assert e == rest[j - 1];
      ExtendUpTo(list, offset, page);
      FillSkipsNothing(rest, offset, maximum, page + [list[0]], e);
    }
  }

  lemma ExtendUpTo(list: seq<Listed>, offset: nat, page: seq<Listed>)
    requires list != [] && Ascending(list) && PageUpTo(list, offset, page) && list[0].cookie > offset
    ensures Ascending(list[1..]) && PageUpTo(list[1..], offset, page + [list[0]])
  {
  }

  lemma FirstIsListed(list: seq<Listed>, offset: nat, maximum: nat, page: seq<Listed>)
    requires list != [] && Ascending(list) && PageUpTo(list, offset, page) && list[0].cookie > offset
    requires PageSize(page) + EntrySize(list[0]) <= maximum
    ensures list[0] in Fill(list, offset, maximum, page)
  {
    ExtendUpTo(list, offset, page);
    FillShape(list[1..], offset, maximum, page + [list[0]]);
    FillEnds(list, offset, maximum, page);
  }

  /** It is empty only when nothing lies past the offset. */
  lemma {:induction false} FillEmpty(list: seq<Listed>, offset: nat, maximum: nat, e: Listed)
    requires Ascending(list) && (forall i :: 0 <= i < |list| ==> EntrySize(list[i]) <= maximum)
    requires e in list && e.cookie > offset
    ensures Fill(list, offset, maximum, []) != []
    decreases |list|
  {
    assert list == [list[0]] + list[1..];
    if list[0].cookie <= offset {
      FillEmpty(list[1..], offset, maximum, e);
    } else {
      FillShape(list[1..], offset, maximum, [list[0]]);
    }
  }

  lemma FillEnds(list: seq<Listed>, offset: nat, maximum: nat, page: seq<Listed>)
    requires list != [] && page + [list[0]] <= Fill(list, offset, maximum, page)
    ensures list[0] in Fill(list, offset, maximum, page)
  {
    assert (page + [list[0]])[|page|] == list[0];
    assert Fill(list, offset, maximum, page)[|page|] == list[0];
  }

  lemma SizeGrows(page: seq<Listed>, e: Listed)
    ensures PageSize(page + [e]) == PageSize(page) + EntrySize(e)
  {
    assert (page + [e])[..|page|] == page;
  }

  /** The entry is the first past the offset that the page leaves out, and it does not fit. */
  ghost predicate TooLong(list: seq<Listed>, offset: nat, maximum: nat, r: seq<Listed>, f: Listed) {
    && f in list && f.cookie > offset && PageSize(r) + EntrySize(f) > maximum
    && forall g :: g in list && offset < g.cookie < f.cookie ==> g in r
  }

  lemma {:induction false} FillIsFull(list: seq<Listed>, offset: nat, maximum: nat, page: seq<Listed>)
    requires Ascending(list) && PageUpTo(list, offset, page) && PageSize(page) <= maximum
    ensures var r := Fill(list, offset, maximum, page);
            && PageSize(r) <= maximum
            && ((forall e :: e in list && e.cookie > offset ==> e in r)
                || exists f :: TooLong(list, offset, maximum, r, f))
    decreases |list|
  {
    if list != [] {
      var first, rest, r := list[0], list[1..], Fill(list, offset, maximum, page);
      assert forall e :: e in list <==> e == first || e in rest by { assert list == [first] + rest; }
      if first.cookie <= offset {
        FillIsFull(rest, offset, maximum, page);
        LaterIsTooLong(list, offset, maximum, r);
      } else if PageSize(page) + EntrySize(first) > maximum {
        assert TooLong(list, offset, maximum, r, first);
      } else {
        SizeGrows(page, first);
        ExtendUpTo(list, offset, page);
        FirstIsListed(list, offset, maximum, page);
        FillIsFull(rest, offset, maximum, page + [first]);
        LaterIsTooLong(list, offset, maximum, r);
      }
    }
  }

  lemma LaterIsTooLong(list: seq<Listed>, offset: nat, maximum: nat, r: seq<Listed>)
    requires list != [] && (list[0].cookie > offset ==> list[0] in r)
    ensures forall f :: TooLong(list[1..], offset, maximum, r, f) ==> TooLong(list, offset, maximum, r, f)
  {
    assert list == [list[0]] + list[1..];
  }

  /** A reply fits, and it ends only at the end of the listing or before an entry that would not fit. */
  lemma PageIsFull(list: seq<Listed>, offset: nat, maximum: nat)
    requires Ascending(list)
    ensures var r := Fill(list, offset, maximum, []);
            && PageSize(r) <= maximum
            && ((forall e :: e in list && e.cookie > offset ==> e in r)
                || exists f :: TooLong(list, offset, maximum, r, f))
  {
    FillIsFull(list, offset, maximum, []);
  }

  // --------------------------------------------------------------------- whole readings

  /** A reading: one listing per request, each page starting after the last cookie of the one before. */
  ghost predicate IsReading(lists: seq<seq<Listed>>, pages: seq<seq<Listed>>, offsets: seq<nat>, maxima: seq<nat>) {
    && |pages| == |lists| == |maxima| && |offsets| == |lists| + 1 && offsets[0] == 0
    && (forall i {:trigger lists[i]} :: 0 <= i < |lists| ==>
          && Ascending(lists[i]) && (forall j :: 0 <= j < |lists[i]| ==> EntrySize(lists[i][j]) <= maxima[i])
          && pages[i] == Fill(lists[i], offsets[i], maxima[i], []))
    && (forall i {:trigger pages[i]} :: 0 <= i < |lists| ==>
          offsets[i + 1] == if pages[i] == [] then offsets[i] else pages[i][|pages[i]| - 1].cookie)
  }

  predicate HasCookie(list: seq<Listed>, c: nat) {
    exists i :: 0 <= i < |list| && list[i].cookie == c
  }

  /** What one page says about its own listing. */
  lemma PageShape(list: seq<Listed>, offset: nat, maximum: nat)
    requires Ascending(list)
    ensures var page := Fill(list, offset, maximum, []);
            && Ascending(page)
            && (forall e :: e in page ==> offset < e.cookie <= page[|page| - 1].cookie)
  {
    FillShape(list, offset, maximum, []);
    var page := Fill(list, offset, maximum, []);
    forall e | e in page ensures e.cookie <= page[|page| - 1].cookie {
      LastIsLargest(page, e);
    }
  }

  lemma LastIsLargest(page: seq<Listed>, e: Listed)
    requires Ascending(page) && e in page
    ensures e.cookie <= page[|page| - 1].cookie
  {
    var k :| 0 <= k < |page| && page[k] == e;
  }

  lemma PageCovers(list: seq<Listed>, offset: nat, maximum: nat, c: nat)
    requires Ascending(list) && (forall i :: 0 <= i < |list| ==> EntrySize(list[i]) <= maximum)
    requires HasCookie(list, c) && c > offset
    ensures var page := Fill(list, offset, maximum, []);
            page != [] && (c <= page[|page| - 1].cookie ==> HasCookie(page, c))
  {
    var j :| 0 <= j < |list| && list[j].cookie == c;
    FillSkipsNothing(list, offset, maximum, [], list[j]);
    FillEmpty(list, offset, maximum, list[j]);
  }

  lemma PageFacts(lists: seq<seq<Listed>>, pages: seq<seq<Listed>>, offsets: seq<nat>, maxima: seq<nat>, i: nat)
    requires IsReading(lists, pages, offsets, maxima) && i < |lists|
    ensures offsets[i] <= offsets[i + 1]
    ensures forall e :: e in pages[i] ==> offsets[i] < e.cookie <= offsets[i + 1]
  {
    PageShape(lists[i], offsets[i], maxima[i]);
    if pages[i] != [] { assert pages[i][|pages[i]| - 1] in pages[i]; }
  }

  lemma PageReaches(lists: seq<seq<Listed>>, pages: seq<seq<Listed>>, offsets: seq<nat>, maxima: seq<nat>, i: nat,
                    c: nat)
    requires IsReading(lists, pages, offsets, maxima) && i < |lists| && HasCookie(lists[i], c) && offsets[i] < c
    ensures pages[i] != [] && (c <= offsets[i + 1] ==> HasCookie(pages[i], c))
  {
    PageCovers(lists[i], offsets[i], maxima[i], c);
  }

  lemma {:induction false} OffsetsGrow(lists: seq<seq<Listed>>, pages: seq<seq<Listed>>, offsets: seq<nat>,
                                       maxima: seq<nat>, i: nat, j: nat)
    requires IsReading(lists, pages, offsets, maxima) && i <= j <= |lists|
    ensures offsets[i] <= offsets[j]
    decreases j
  {
    if i < j {
      OffsetsGrow(lists, pages, offsets, maxima, i, j - 1);
      PageFacts(lists, pages, offsets, maxima, j - 1);
    }
  }

  /** Cookies strictly increase from page to page, so none is listed twice. */
  lemma PagesAscend(lists: seq<seq<Listed>>, pages: seq<seq<Listed>>, offsets: seq<nat>, maxima: seq<nat>,
                    i: nat, j: nat, a: Listed, b: Listed)
    requires IsReading(lists, pages, offsets, maxima) && i < j < |lists| && a in pages[i] && b in pages[j]
    ensures a.cookie < b.cookie
  {
    PageFacts(lists, pages, offsets, maxima, i);
    PageFacts(lists, pages, offsets, maxima, j);
    OffsetsGrow(lists, pages, offsets, maxima, i + 1, j);
  }

  /** While a staying entry is not listed yet, the offset has not passed it. */
  lemma {:induction false} NotPassed(lists: seq<seq<Listed>>, pages: seq<seq<Listed>>, offsets: seq<nat>,
                                     maxima: seq<nat>, n: nat, c: nat)
    requires IsReading(lists, pages, offsets, maxima) && n <= |lists| && c > 0
    requires forall i :: 0 <= i < n ==> HasCookie(lists[i], c) && !HasCookie(pages[i], c)
    ensures offsets[n] < c
  {
    if n > 0 {
      NotPassed(lists, pages, offsets, maxima, n - 1, c);
      PageReaches(lists, pages, offsets, maxima, n - 1, c);
    }
  }

  /** An entry that stays in the directory is on exactly one page of a finished reading. */
  lemma StayingEntryIsListedOnce(lists: seq<seq<Listed>>, pages: seq<seq<Listed>>, offsets: seq<nat>,
                                 maxima: seq<nat>, c: nat)
    returns (k: nat)
    requires IsReading(lists, pages, offsets, maxima) && |lists| > 0 && pages[|pages| - 1] == []
    requires c > 0 && forall i :: 0 <= i < |lists| ==> HasCookie(lists[i], c)
    ensures k < |pages| && HasCookie(pages[k], c)
    ensures forall i :: 0 <= i < |pages| && i != k ==> !HasCookie(pages[i], c)
  {
    ListedSomewhere(lists, pages, offsets, maxima, c);
    k :| 0 <= k < |pages| && HasCookie(pages[k], c);
    forall i | 0 <= i < |pages| && i != k ensures !HasCookie(pages[i], c) {
      OnlyOnePage(lists, pages, offsets, maxima, if i < k then i else k, if i < k then k else i, c);
    }
  }

  lemma ListedSomewhere(lists: seq<seq<Listed>>, pages: seq<seq<Listed>>, offsets: seq<nat>, maxima: seq<nat>, c: nat)
    requires IsReading(lists, pages, offsets, maxima) && |lists| > 0 && pages[|pages| - 1] == []
    requires c > 0 && forall i :: 0 <= i < |lists| ==> HasCookie(lists[i], c)
    ensures exists k :: 0 <= k < |pages| && HasCookie(pages[k], c)
  {
    if forall k :: 0 <= k < |pages| ==> !HasCookie(pages[k], c) {
      NotPassed(lists, pages, offsets, maxima, |lists| - 1, c);
      PageReaches(lists, pages, offsets, maxima, |lists| - 1, c);
    }
  }

  lemma OnlyOnePage(lists: seq<seq<Listed>>, pages: seq<seq<Listed>>, offsets: seq<nat>, maxima: seq<nat>, i: nat,
                    j: nat, c: nat)
    requires IsReading(lists, pages, offsets, maxima) && i < j < |lists|
    ensures !(HasCookie(pages[i], c) && HasCookie(pages[j], c))
  {
    if HasCookie(pages[i], c) && HasCookie(pages[j], c) {
      var a :| 0 <= a < |pages[i]| && pages[i][a].cookie == c;
      var b :| 0 <= b < |pages[j]| && pages[j][b].cookie == c;
      PagesAscend(lists, pages, offsets, maxima, i, j, pages[i][a], pages[j][b]);
    }
  }

  // -------------------------------------------------------------- what staying means

  /** Directory d has the entry e, inode and cookie, under the name x. */
  ghost predicate Lists(m: Arena, d: Id, x: Name, e: Entry) {
    IsDir(m, d) && x in m[d].kind.entries && m[d].kind.entries[x] == e
  }

  lemma InsertKeepsCookies(fs: Fs, p: Id, n: Name, kind: Kind, d: Id, x: Name, e: Entry)
    requires Inv(fs) && Insert(fs, p, n, kind).Ok? && Lists(fs.inodes, d, x, e)
    ensures Lists(Insert(fs, p, n, kind).value.0.inodes, d, x, e)
  {
    assert d < fs.nextInode;
  }

  lemma LinkKeepsCookies(fs: Fs, p: Id, n: Name, id: Id, d: Id, x: Name, e: Entry)
    requires LinkAt(fs, p, n, id).Ok? && Lists(fs.inodes, d, x, e)
    ensures Lists(LinkAt(fs, p, n, id).value.inodes, d, x, e)
  {
  }

  lemma RemoveKeepsOtherCookies(fs: Fs, p: Id, n: Name, d: Id, x: Name, e: Entry)
    requires RemoveAt(fs, p, n).Ok? && Lists(fs.inodes, d, x, e) && (d != p || x != n)
    ensures Lists(RemoveAt(fs, p, n).value.inodes, d, x, e)
  {
  }

  /** A rename inside one directory keeps the cookie; only a moved or replaced entry leaves. */
  lemma RenameKeepsCookies(fs: Fs, p: Id, n: Name, q: Id, o: Name, d: Id, x: Name, e: Entry)
    requires Inv(fs) && Moves(fs, p, n, q, o) && Lists(fs.inodes, d, x, e)
    requires !(d == q && x == o) && !(d == p && x == n && p != q)
    ensures Lists(RenameAt(fs, p, n, q, o).value.inodes, d, if d == p && x == n then o else x, e)
  {
    RenameIsReady(fs, p, n, q, o);
    DisplacedKeepsCookies(fs, q, o, d, x, e);
    var gone := Displaced(fs, q, o);
    MoveKeepsCookies(gone, p, n, q, o, RenameCookie(fs, p, n, q), d, x, e);
  }

  lemma DisplacedKeepsCookies(fs: Fs, q: Id, o: Name, d: Id, x: Name, e: Entry)
    requires IsDir(fs.inodes, q) && (o in fs.inodes[q].kind.entries ==> Removable(fs, q, o))
    requires o in fs.inodes[q].kind.entries && IsDir(fs.inodes, fs.inodes[q].kind.entries[o].inode) ==>
               fs.inodes[fs.inodes[q].kind.entries[o].inode].kind.entries == map[]
    requires Lists(fs.inodes, d, x, e) && !(d == q && x == o)
    ensures Lists(Displaced(fs, q, o).inodes, d, x, e)
  {
  }

  lemma MoveKeepsCookies(fs: Fs, p: Id, n: Name, q: Id, o: Name, cookie: nat, d: Id, x: Name, e: Entry)
    requires IsDir(fs.inodes, p) && IsDir(fs.inodes, q) && n in fs.inodes[p].kind.entries
    requires fs.inodes[p].kind.entries[n].inode in fs.inodes && fs.inodes[p].kind.entries[n].inode !in {p, q}
    requires Lists(fs.inodes, d, x, e) && !(d == q && x == o) && !(d == p && x == n && p != q)
    requires p == q ==> cookie == fs.inodes[p].kind.entries[n].cookie
    ensures Lists(MoveEntry(fs, p, n, q, o, cookie).inodes, d, if d == p && x == n then o else x, e)
  {
  }
}
