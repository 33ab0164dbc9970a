/** Listing a directory page by page through its buffer. */
module DirectoryListing {
  import opened Memory
  import opened WideStrings
  import opened FileNames
  import opened RecordPacking
  import opened DirectoryIndex
  import opened DirectoryBuffers

  // ---------- one page ----------

  /** What a reader finds in a page: the records that fit, and an end mark exactly if they are the last ones and it
      fits. */
  lemma PageReads(page: seq<Byte>, o: nat, recs: seq<Record>, length: nat, e: nat)
    requires IsPage(page, o, recs, length, e) && AllSelfSized(recs) && o <= length
    ensures e <= length <= |page|
    ensures Walk(page, o, e) == PageRecords(recs, length - o)
    ensures EndMarked(page, o, e) <==> PageEnds(recs, length - o)
  {
    var n := Fitting(recs, length - o);
    var end := o + PackedSize(recs[..n]);
    assert forall r :: r in recs[..n] ==> r in recs;
    if n == |recs| { assert recs[..n] == recs; }
    WalkPacked(page, o, recs[..n], end);
  }

  function PageRecords(recs: seq<Record>, room: nat): seq<Record>
  {
    recs[..Fitting(recs, room)]
  }

  predicate PageEnds(recs: seq<Record>, room: nat)
  {
    Fitting(recs, room) == |recs| && PackedSize(recs) + 2 <= room
  }

  // ---------- resuming after a name ----------

  ghost predicate StrictlyOrdered(recs: seq<Record>)
  {
    forall a, b :: 0 <= a < b < |recs| ==> NameLess(NameIn(recs[a]), NameIn(recs[b]))
  }

  ghost predicate NamesDistinct(recs: seq<Record>)
  {
    forall a, b :: 0 <= a < b < |recs| ==> !NameEqual(NameIn(recs[a]), NameIn(recs[b]))
  }

  lemma DistinctIsStrict(recs: seq<Record>)
    requires Ordered(recs)
    ensures NamesDistinct(recs) <==> StrictlyOrdered(recs)
  {
    hide NameLess, NameEqual, NameIn;
    forall a, b | 0 <= a < b < |recs|
      ensures NameLess(NameIn(recs[a]), NameIn(recs[b])) <==> !NameEqual(NameIn(recs[a]), NameIn(recs[b]))
    {
      NamesAreTotal(NameIn(recs[a]), NameIn(recs[b]));
    }
  }

  /** The place where a listing resumes: after the records that are not after the marker. */
  function ResumeIndex(recs: seq<Record>, marker: Option<Wide>): (n: nat)
    ensures n <= |recs|
  {
    if marker.None? || recs == [] || NameLess(marker.value, NameIn(recs[0])) then 0
    else 1 + ResumeIndex(recs[1..], marker)
  }

  /** In a directory whose names are distinct the search leaves no choice. */
  lemma {:induction false} StrictResume(recs: seq<Record>, marker: Wide, from: nat)
    requires StrictlyOrdered(recs) && ResumesAt(recs, marker, from)
    ensures from == ResumeIndex(recs, Some(marker))
  {
    hide NameLess, NameEqual, NameIn;
    if from < |recs| { NamesAreTotal(marker, NameIn(recs[from])); }
    if from == 0 {
      if recs != [] {
        NamesAreTotal(NameIn(recs[0]), marker);
        assert !NameEqual(NameIn(recs[0]), marker);
        assert NameLess(marker, NameIn(recs[0]));
      }
    } else {
      var rest := recs[1..];
      forall k | 0 <= k < |rest| ensures rest[k] == recs[k + 1] {}
      if exists k :: 0 <= k < |rest| && NameEqual(NameIn(rest[k]), marker) {
        var k :| 0 <= k < |rest| && NameEqual(NameIn(rest[k]), marker);
        assert NameEqual(NameIn(recs[k + 1]), marker);
        assert NameEqual(NameIn(recs[from - 1]), marker);
        if from == 1 {
          assert NameLess(NameIn(recs[0]), NameIn(recs[k + 1]));
          EqualNamesCompareAlike(NameIn(recs[0]), marker, NameIn(recs[k + 1]));
          EqualNamesCompareAlike(NameIn(recs[k + 1]), marker, marker);
          NamesAreTotal(marker, marker);
          assert false;
        }
      }
      StrictResume(rest, marker, from - 1);
    }
  }

  lemma {:induction false} ResumeAfterName(recs: seq<Record>, k: nat)
    requires StrictlyOrdered(recs) && k < |recs|
    ensures ResumeIndex(recs, Some(NameIn(recs[k]))) == k + 1
  {
    hide NameLess, NameEqual, NameIn;
    var name := NameIn(recs[k]);
    NamesAreTotal(name, name);
    if k > 0 {
      NamesAreTotal(NameIn(recs[0]), name);
      ResumeAfterName(recs[1..], k - 1);
    } else if |recs| > 1 {
      assert recs[1..][0] == recs[1];
      assert NameLess(name, NameIn(recs[1]));
    }
  }

  lemma {:induction false} ResumeBefore(recs: seq<Record>, marker: Wide, k: nat)
    requires k < |recs| && NameLess(marker, NameIn(recs[k]))
    ensures ResumeIndex(recs, Some(marker)) <= k
  {
    hide NameLess, NameIn;
    if !NameLess(marker, NameIn(recs[0])) { ResumeBefore(recs[1..], marker, k - 1); }
  }

  /** The name of a record, which as a marker ends at its first NUL, resumes the listing right after that record
      exactly if it has no NUL; else it resumes it at that record or before. */
  lemma ResumeAfter(recs: seq<Record>, k: nat)
    requires StrictlyOrdered(recs) && k < |recs|
    ensures var n := ResumeIndex(recs, Some(BeforeNul(NameIn(recs[k]))));
            if NUL in NameIn(recs[k]) then n <= k else n == k + 1
  {
    hide StrictlyOrdered, NameLess, NameIn, ResumeIndex;
    var name := NameIn(recs[k]);
    if NUL in name {
      CutNameIsLess(name);
      ResumeBefore(recs, BeforeNul(name), k);
    } else {
      ResumeAfterName(recs, k);
    }
  }

  // ---------- a whole listing ----------

  ghost predicate NulFree(recs: seq<Record>)
  {
    forall k :: 0 <= k < |recs| ==> NUL !in NameIn(recs[k])
  }

  /** The marker for the next page: the last name read, up to a NUL, or the marker before if nothing was read. */
  function NextMarker(marker: Option<Wide>, read: seq<Record>): Option<Wide>
  {
    if read == [] then marker else Some(BeforeNul(NameIn(read[|read| - 1])))
  }

  /** Reading pages of the given lengths, each resumed after the last name read, up to an end mark. */
  function ReadPages(recs: seq<Record>, marker: Option<Wide>, lengths: seq<nat>): (seq<Record>, bool)
    decreases |lengths|
  {
    if lengths == [] then ([], false)
    else
      var rest := recs[ResumeIndex(recs, marker)..];
      var read := PageRecords(rest, lengths[0]);
      if PageEnds(rest, lengths[0]) then (read, true)
      else
        var (more, ended) := ReadPages(recs, NextMarker(marker, read), lengths[1..]);
        (read + more, ended)
  }

  /** Each page has room for the record it resumes at, or for the end mark when no record is left. */
  predicate Roomy(recs: seq<Record>, marker: Option<Wide>, lengths: seq<nat>)
    decreases |lengths|
  {
    lengths == [] ||
    var rest := recs[ResumeIndex(recs, marker)..];
    && (if rest == [] then 2 else AlignUp(|rest[0]|)) <= lengths[0]
    && Roomy(recs, NextMarker(marker, PageRecords(rest, lengths[0])), lengths[1..])
  }

  lemma NextMarkerIs(recs: seq<Record>, marker: Option<Wide>, from: nat, n: nat)
    requires from + n <= |recs|
    ensures NextMarker(marker, recs[from..][..n]) == if n == 0 then marker
                                                       else Some(BeforeNul(NameIn(recs[from + n - 1])))
  {
    hide NameIn, BeforeNul;
  }

  lemma NulFreeAt(recs: seq<Record>, k: nat)
    requires NulFree(recs) && k < |recs|
    ensures NUL !in NameIn(recs[k])
  {
    hide NameIn;
  }

  lemma NextMarkerResumes(recs: seq<Record>, marker: Option<Wide>, n: nat)
    requires StrictlyOrdered(recs) && NulFree(recs)
    requires ResumeIndex(recs, marker) + n <= |recs|
    ensures var from := ResumeIndex(recs, marker);
            ResumeIndex(recs, NextMarker(marker, recs[from..][..n])) == from + n
  {
    hide *;
    var from := ResumeIndex(recs, marker);
    NextMarkerIs(recs, marker, from, n);
    if n > 0 {
      NulFreeAt(recs, from + n - 1);
      ResumeAfter(recs, from + n - 1);
    }
  }

  /** Whatever the page lengths, the listing is delivered in order, without gap and without repetition; it is complete
      when the end mark comes. */
  lemma {:induction false} PagesDeliverInOrder(recs: seq<Record>, marker: Option<Wide>, lengths: seq<nat>)
    requires StrictlyOrdered(recs) && NulFree(recs)
    ensures var (read, ended) := ReadPages(recs, marker, lengths);
            var from := ResumeIndex(recs, marker);
            && from + |read| <= |recs| && read == recs[from..from + |read|]
            && (ended ==> from + |read| == |recs|)
    decreases |lengths|
  {
    hide StrictlyOrdered, NulFree, PackedSize, NextMarker, ResumeIndex, Fitting;
    if lengths != [] {
      var from := ResumeIndex(recs, marker);
      var rest := recs[from..];
      var n := Fitting(rest, lengths[0]);
      NextMarkerResumes(recs, marker, n);
      PagesDeliverInOrder(recs, NextMarker(marker, rest[..n]), lengths[1..]);
      var more := ReadPages(recs, NextMarker(marker, rest[..n]), lengths[1..]).0;
      SlicesJoin(recs, from, n, |more|);
    }
  }

  lemma SlicesJoin<T>(s: seq<T>, from: nat, n: nat, m: nat)
    requires from + n <= |s|
    ensures s[from..][..n] == s[from..from + n]
    ensures from + n + m <= |s| ==> s[from..from + n] + s[from + n..from + n + m] == s[from..from + n + m]
  {
  }

  /** With room for one record in each page, one page more than there are records left is enough to get the end mark. */
  lemma {:induction false} PagesEnd(recs: seq<Record>, marker: Option<Wide>, lengths: seq<nat>)
    requires StrictlyOrdered(recs) && NulFree(recs) && Roomy(recs, marker, lengths)
    requires |lengths| > |recs| - ResumeIndex(recs, marker)
    ensures ReadPages(recs, marker, lengths).1
    decreases |lengths|
  {
    var from := ResumeIndex(recs, marker);
    var rest := recs[from..];
    var n := Fitting(rest, lengths[0]);
    NextMarkerResumes(recs, marker, n);
    if !PageEnds(rest, lengths[0]) {
      if rest != [] {
        assert n > 0;
        PagesEnd(recs, NextMarker(marker, rest[..n]), lengths[1..]);
      }
    }
  }

  /** From no marker, roomy pages list the whole directory exactly once and end. */
  lemma WholeDirectoryIsListed(recs: seq<Record>, lengths: seq<nat>)
    requires Ordered(recs) && NamesDistinct(recs) && NulFree(recs)
    requires Roomy(recs, None, lengths) && |lengths| > |recs|
    ensures ReadPages(recs, None, lengths) == (recs, true)
  {
    assert ResumeIndex(recs, None) == 0 && recs[0..|recs|] == recs;
    hide *;
    DistinctIsStrict(recs);
    PagesDeliverInOrder(recs, None, lengths);
    PagesEnd(recs, None, lengths);
  }

  // ---------- names with a NUL ----------

  /** The pages of the given lengths deliver the whole directory, if each has room and there are enough of them. */
  ghost predicate Lists(recs: seq<Record>, lengths: seq<nat>)
  {
    Roomy(recs, None, lengths) && |lengths| > |recs| ==> ReadPages(recs, None, lengths) == (recs, true)
  }

  lemma FittingAll(recs: seq<Record>, room: nat)
    requires PackedSize(recs) <= room
    ensures Fitting(recs, room) == |recs|
  {
    assert recs[..|recs|] == recs;
    FittingIs(recs, room, |recs|);
  }

  lemma {:induction false} PackedSizeOfPart(recs: seq<Record>, k: nat)
    requires k <= |recs|
    ensures PackedSize(recs[k..]) <= PackedSize(recs)
  {
    if k > 0 {
      assert recs[1..][k - 1..] == recs[k..];
      PackedSizeOfPart(recs[1..], k - 1);
    } else {
      assert recs[0..] == recs;
    }
  }

  /** A page that ends with a record resumes there, so if its name has a NUL the record is delivered again. */
  lemma NulNameRepeats(recs: seq<Record>, k: nat) returns (lengths: seq<nat>)
    requires StrictlyOrdered(recs) && AllSelfSized(recs) && k < |recs| && NUL in NameIn(recs[k])
    ensures !Lists(recs, lengths)
  {
    hide *;
    var first, whole := PackedSize(recs[..k + 1]), PackedSize(recs) + 2;
    var more := seq(|recs|, _ => whole);
    lengths := [first] + more;
    ResumeAfter(recs, k);
    FirstPart(recs, k);
    FirstPage(recs, first, more);
    var read := recs[..k + 1];
    LastNext(recs, k);
    LastPage(recs, NextMarker(None, read), more);
    NotListed(recs, lengths, read + recs[ResumeIndex(recs, NextMarker(None, read))..]);
  }

  lemma LastNext(recs: seq<Record>, k: nat)
    requires k < |recs|
    ensures NextMarker(None, recs[..k + 1]) == Some(BeforeNul(NameIn(recs[k])))
  {
  }

  lemma NotListed(recs: seq<Record>, lengths: seq<nat>, read: seq<Record>)
    requires Roomy(recs, None, lengths) && |lengths| > |recs| && |read| > |recs|
    requires ReadPages(recs, None, lengths) == (read, true)
    ensures !Lists(recs, lengths)
  {
  }

  lemma FirstPage(recs: seq<Record>, first: nat, more: seq<nat>)
    requires recs != [] && AlignUp(|recs[0]|) <= first && !PageEnds(recs, first)
    ensures var marker := NextMarker(None, PageRecords(recs, first));
            && ReadPages(recs, None, [first] + more) ==
               (PageRecords(recs, first) + ReadPages(recs, marker, more).0, ReadPages(recs, marker, more).1)
            && (Roomy(recs, marker, more) ==> Roomy(recs, None, [first] + more))
  {
    hide PageEnds, PageRecords, NextMarker;
    assert ([first] + more)[1..] == more && recs[0..] == recs;
  }

  /** The first records up to one of them just fill a page, without an end mark. */
  lemma FirstPart(recs: seq<Record>, k: nat)
    requires k < |recs| && AllSelfSized(recs)
    ensures var first := PackedSize(recs[..k + 1]);
            PageRecords(recs, first) == recs[..k + 1] && !PageEnds(recs, first) && AlignUp(|recs[0]|) <= first
  {
    var first := PackedSize(recs[..k + 1]);
    if k + 1 < |recs| {
      assert recs[..k + 2] == recs[..k + 1] + [recs[k + 1]];
      PackedSizeAppend(recs[..k + 1], recs[k + 1]);
      assert SelfSized(recs[k + 1]);
    }
    FittingIs(recs, first, k + 1);
    assert recs[..k + 1][0] == recs[0];
    if k + 1 == |recs| { assert recs[..k + 1] == recs; }
  }

  /** A page with room for everything ends a listing wherever it resumes. */
  lemma LastPage(recs: seq<Record>, marker: Option<Wide>, lengths: seq<nat>)
    requires lengths != [] && lengths[0] == PackedSize(recs) + 2
    ensures ReadPages(recs, marker, lengths) == (recs[ResumeIndex(recs, marker)..], true)
    ensures (forall i :: 0 <= i < |lengths| ==> lengths[i] == lengths[0]) ==> Roomy(recs, marker, lengths)
    decreases |lengths|
  {
    var rest := recs[ResumeIndex(recs, marker)..];
    PackedSizeOfPart(recs, ResumeIndex(recs, marker));
    FittingAll(rest, lengths[0]);
    assert PageRecords(rest, lengths[0]) == rest;
    if |lengths| > 1 && forall i :: 0 <= i < |lengths| ==> lengths[i] == lengths[0] {
      assert lengths[1..][0] == lengths[0];
      LastPage(recs, NextMarker(marker, rest), lengths[1..]);
    }
  }

  /** The exact condition: all pages with room deliver the directory exactly once if and only if no name has a NUL. */
  lemma ListedExactlyIfNulFree(recs: seq<Record>)
    requires Ordered(recs) && NamesDistinct(recs) && AllSelfSized(recs)
    ensures NulFree(recs) <==> forall lengths :: Lists(recs, lengths)
  {
    hide Ordered, NamesDistinct, AllSelfSized, StrictlyOrdered, Roomy, ReadPages, NameIn;
    DistinctIsStrict(recs);
    if NulFree(recs) {
      forall lengths ensures Lists(recs, lengths) {
        if Roomy(recs, None, lengths) && |lengths| > |recs| { WholeDirectoryIsListed(recs, lengths); }
      }
    } else {
      var k :| 0 <= k < |recs| && NUL in NameIn(recs[k]);
      var lengths := NulNameRepeats(recs, k);
    }
  }

  /** The names "a" and "a", NUL, "b". */
  function TwoRecords(): seq<Record>
  {
    [DirInfo([0x61]), DirInfo([0x61, NUL, 0x62])]
  }

  lemma TwoRecordsAre()
    ensures var recs := TwoRecords();
            && AllSelfSized(recs) && StrictlyOrdered(recs)
            && |recs| == 2 && AlignUp(|recs[0]|) == AlignUp(|recs[1]|) == 112
            && NameIn(recs[0]) == [0x61] && NameIn(recs[1]) == [0x61, NUL, 0x62]
  {
    hide NameIn, DirInfo, NameLess;
    DirInfoIs([0x61]);
    DirInfoIs([0x61, NUL, 0x62]);
    FirstIsLess();
  }

  lemma FirstIsLess()
    ensures NameLess([0x61], [0x61, NUL, 0x62])
  {
    hide NameLess;
    CutIs();
    CutNameIsLess([0x61, NUL, 0x62]);
  }

  lemma CutIs()
    ensures BeforeNul([0x61]) == [0x61] && BeforeNul([0x61, NUL, 0x62]) == [0x61]
  {
    var s: Wide := [0x61, NUL, 0x62];
    assert s[1..][0] == NUL;
    assert BeforeNul(s[1..]) == [];
  }

  /** Pages with room for one of the two records each never end: the second one is delivered again and again. */
  lemma NulNameIsReadForever(n: nat)
    ensures var recs, lengths := TwoRecords(), seq(n, _ => 112);
            Roomy(recs, None, lengths) && !ReadPages(recs, None, lengths).1
  {
    TwoRecordsAre();
    if n > 0 {
      var recs := TwoRecords();
      assert seq(n, _ => 112)[1..] == seq(n - 1, _ => 112);
      ResumeAfter(recs, 0);
      CutIs();
      PageOfOne(recs);
      SecondIsReadForever(recs, n - 1);
    }
  }

  lemma PageOfOne(recs: seq<Record>)
    requires recs != [] && AlignUp(|recs[0]|) == 112 && (|recs| > 1 ==> |recs[1]| > 0)
    ensures PageRecords(recs, 112) == [recs[0]] && !PageEnds(recs, 112)
  {
    if |recs| > 1 { assert recs[1..][0] == recs[1]; }
    assert Fitting(recs[1..], 0) == 0;
    assert recs[..1] == [recs[0]];
  }

  lemma {:induction false} SecondIsReadForever(recs: seq<Record>, n: nat)
    requires recs == TwoRecords()
    ensures var lengths := seq(n, _ => 112);
            Roomy(recs, Some([0x61]), lengths) && !ReadPages(recs, Some([0x61]), lengths).1
  {
    TwoRecordsAre();
    if n > 0 {
      assert seq(n, _ => 112)[1..] == seq(n - 1, _ => 112);
      CutIs();
      ResumeAfter(recs, 0);
      PageOfOne(recs[1..]);
      SecondIsReadForever(recs, n - 1);
    }
  }

  // ---------- the clients ----------

  lemma ReadOn(recs: seq<Record>, marker: Option<Wide>, lengths: seq<nat>, i: nat)
    requires i < |lengths|
    ensures var rest := recs[ResumeIndex(recs, marker)..];
            var read := PageRecords(rest, lengths[i]);
            var more := ReadPages(recs, NextMarker(marker, read), lengths[i + 1..]);
            && ReadPages(recs, marker, lengths[i..]).0 == read + (if PageEnds(rest, lengths[i]) then [] else more.0)
            && ReadPages(recs, marker, lengths[i..]).1 == (PageEnds(rest, lengths[i]) || more.1)
  {
    hide PageRecords, PageEnds, ResumeIndex, NextMarker;
    assert lengths[i..][1..] == lengths[i + 1..];
  }

  lemma ReadingEnds(recs: seq<Record>, marker: Option<Wide>, lengths: seq<nat>)
    ensures lengths[0..] == lengths
    ensures ReadPages(recs, marker, lengths[|lengths|..]).0 == [] && !ReadPages(recs, marker, lengths[|lengths|..]).1
  {
  }

  lemma MarkerIsCut(marker: Option<Wide>, read: seq<Record>)
    requires marker.Some? ==> NUL !in marker.value
    ensures NextMarker(marker, read).Some? ==> NUL !in NextMarker(marker, read).value
  {
  }

  lemma ResumesWhere(recs: seq<Record>, marker: Option<Wide>, from: nat)
    requires StrictlyOrdered(recs) && (marker.Some? ==> NUL !in marker.value)
    requires if marker.None? then from == 0 else ResumesAt(recs, BeforeNul(marker.value), from)
    ensures from == ResumeIndex(recs, marker)
  {
    if marker.Some? { StrictResume(recs, marker.value, from); }
  }

  /** Reads one page and what is in it. */
  method ReadOnePage(dirBuffer: DirectoryBuffer, marker: Option<Wide>, page: array<Byte>, length: nat)
    returns (read: seq<Record>, ended: bool)
    requires dirBuffer.Ready() && dirBuffer.buffer != page && length <= page.Length
    requires StrictlyOrdered(dirBuffer.Records()) && (marker.Some? ==> NUL !in marker.value)
    modifies page
    ensures dirBuffer.Ready() && dirBuffer.Records() == old(dirBuffer.Records())
    ensures var recs := dirBuffer.Records();
            var rest := recs[ResumeIndex(recs, marker)..];
            read == PageRecords(rest, length) && (ended <==> PageEnds(rest, length))
  {
    hide *;
    var transferred;
    ghost var from;
    transferred, from := DirectoryBuffer.Read(dirBuffer, marker, page, length, 0);
    ghost var recs := dirBuffer.Records();
    ResumesWhere(recs, marker, from);
    dirBuffer.RecordsAreWhole();
    RestIsWhole(recs, from);
    PageReads(page[..], 0, recs[from..], length, transferred);
    read, ended := Walk(page[..], 0, transferred), EndMarked(page[..], 0, transferred);
  }

  lemma RestIsWhole(recs: seq<Record>, from: nat)
    requires from <= |recs| && AllSelfSized(recs)
    ensures AllSelfSized(recs[from..])
  {
  }

  /** Lists a directory by reading pages of the given lengths, each after the last name of the one before, up to an
      end mark. */
  method ListDirectory(dirBuffer: DirectoryBuffer, lengths: seq<nat>, page: array<Byte>)
    returns (read: seq<Record>, ended: bool)
    requires dirBuffer.Ready() && dirBuffer.buffer != page && NamesDistinct(dirBuffer.Records())
    requires forall i :: 0 <= i < |lengths| ==> lengths[i] <= page.Length
    modifies page
    ensures dirBuffer.Ready() && dirBuffer.Records() == old(dirBuffer.Records())
    ensures read == ReadPages(dirBuffer.Records(), None, lengths).0 &&
            ended == ReadPages(dirBuffer.Records(), None, lengths).1
    ensures NulFree(dirBuffer.Records()) && Roomy(dirBuffer.Records(), None, lengths) &&
            |lengths| > |dirBuffer.Records()| ==>
              read == dirBuffer.Records() && ended
  {
    hide *;
    ghost var recs := dirBuffer.Records();
    dirBuffer.ReadyCount();
    DistinctIsStrict(recs);
    ReadingEnds(recs, None, lengths);
    read, ended := [], false;
    var marker: Option<Wide> := None;
    var i := 0;
    while i < |lengths| && !ended
      invariant 0 <= i <= |lengths| && (marker.Some? ==> NUL !in marker.value)
      invariant dirBuffer.Ready() && dirBuffer.Records() == recs
      invariant ReadPages(recs, None, lengths).0 ==
                read + (if ended then [] else ReadPages(recs, marker, lengths[i..]).0)
      invariant ReadPages(recs, None, lengths).1 == (ended || ReadPages(recs, marker, lengths[i..]).1)
    {
      ReadOn(recs, marker, lengths, i);
      ghost var before := read;
      var more;
      more, ended := ReadOnePage(dirBuffer, marker, page, lengths[i]);
      read := read + more;
      MarkerIsCut(marker, more);
      marker := NextMarker(marker, more);
      i := i + 1;
    }
    ReadingEnds(recs, marker, lengths);
    if NulFree(recs) && Roomy(recs, None, lengths) && |lengths| > |recs| { WholeDirectoryIsListed(recs, lengths); }
  }

  lemma NothingFilled(entries: seq<Record>)
    ensures multiset(Present<Record>([])) == multiset(entries[..0])
  {
  }

  lemma FilledPresent(before: seq<Option<Record>>, entries: seq<Record>, i: nat)
    requires i < |entries|
    ensures multiset(Present([Some(entries[i])] + before)) == multiset{entries[i]} + multiset(Present(before))
    ensures multiset(entries[..i + 1]) == multiset(entries[..i]) + multiset{entries[i]}
  {
    assert ([Some(entries[i])] + before)[1..] == before;
    assert entries[..i + 1] == entries[..i] + [entries[i]];
  }

  predicate DirInfos(entries: seq<Record>)
  {
    forall r :: r in entries ==> SelfSized(r) && |r| >= DIR_INFO_SIZE
  }

  lemma EachIsDirInfo(entries: seq<Record>, i: nat)
    requires DirInfos(entries) && i < |entries|
    ensures SelfSized(entries[i]) && |entries[i]| >= DIR_INFO_SIZE
  {
  }

  /** All the records can be filled in, one after the other, without an allocation being refused. */
  ghost predicate AllObtained(entries: seq<Record>, capacity: nat, initial: nat, used: int, allocate: nat -> bool)
    requires initial > 0 && used >= 0
  {
    entries == [] ||
    var need := used + AlignUp(|entries[0]|) + 4;
    Obtains(capacity, initial, need, allocate) &&
    AllObtained(entries[1..], Grown(capacity, initial, need), initial, need, allocate)
  }

  lemma NextObtained(entries: seq<Record>, i: nat, capacity: nat, initial: nat, used: int, allocate: nat -> bool)
    requires initial > 0 && used >= 0 && i < |entries|
    ensures var need := used + AlignUp(|entries[i]|) + 4;
            AllObtained(entries[i..], capacity, initial, used, allocate) <==>
            Obtains(capacity, initial, need, allocate) &&
            AllObtained(entries[i + 1..], Grown(capacity, initial, need), initial, need, allocate)
  {
    assert entries[i..][1..] == entries[i + 1..];
  }

  lemma EndObtained(entries: seq<Record>, capacity: nat, initial: nat, used: int, allocate: nat -> bool)
    requires initial > 0 && used >= 0
    ensures AllObtained(entries[|entries|..], capacity, initial, used, allocate) && entries[0..] == entries
  {
  }

  /** Fills in the next record. */
  method FillNext(dirBuffer: DirectoryBuffer, entries: seq<Record>, i: nat, allocate: nat -> bool) returns (ok: bool)
    requires dirBuffer.Valid() && DirInfos(entries) && i < |entries|
    requires multiset(Present(dirBuffer.Listing())) == multiset(entries[..i])
    requires forall n: nat :: allocate(n) ==> n <= INT_MAX
    modifies dirBuffer, dirBuffer.buffer
    ensures dirBuffer.Valid() && (dirBuffer.buffer == old(dirBuffer.buffer) || fresh(dirBuffer.buffer))
    ensures ok ==> multiset(Present(dirBuffer.Listing())) == multiset(entries[..i + 1])
    ensures dirBuffer.initialCapacity > 0 && old(dirBuffer.Used()) >= 0 && dirBuffer.Used() >= 0
    ensures AllObtained(entries[i..], old(dirBuffer.capacity), dirBuffer.initialCapacity, old(dirBuffer.Used()),
                        allocate) <==>
            ok &&
            AllObtained(entries[i + 1..], dirBuffer.capacity, dirBuffer.initialCapacity, dirBuffer.Used(), allocate)
  {
    hide *;
    dirBuffer.Bounds();
    EachIsDirInfo(entries, i);
    NextObtained(entries, i, dirBuffer.capacity, dirBuffer.initialCapacity, dirBuffer.Used(), allocate);
    FilledPresent(dirBuffer.Listing(), entries, i);
    var status;
    ok, status := dirBuffer.Fill(Some(entries[i]), allocate);
    dirBuffer.Bounds();
  }

  /** Fills an acquired buffer with what the file system reports, up to the first failure, and releases it. */
  method FillAll(dirBuffer: DirectoryBuffer, entries: seq<Record>, allocate: nat -> bool) returns (ok: bool)
    requires dirBuffer.Valid() && dirBuffer.Listing() == [] && DirInfos(entries)
    requires forall n: nat :: allocate(n) ==> n <= INT_MAX
    modifies dirBuffer, dirBuffer.buffer
    ensures dirBuffer.Ready() && (dirBuffer.buffer == old(dirBuffer.buffer) || fresh(dirBuffer.buffer))
    ensures ok ==> multiset(dirBuffer.Records()) == multiset(entries)
    ensures dirBuffer.initialCapacity > 0 && old(dirBuffer.Used()) >= 0
    ensures ok <==>
            AllObtained(entries, old(dirBuffer.capacity), dirBuffer.initialCapacity, old(dirBuffer.Used()), allocate)
  {
    hide *;
    NothingFilled(entries);
    dirBuffer.Bounds();
    EndObtained(entries, dirBuffer.capacity, dirBuffer.initialCapacity, dirBuffer.Used(), allocate);
    ghost var all := AllObtained(entries, dirBuffer.capacity, dirBuffer.initialCapacity, dirBuffer.Used(), allocate);
    ok := true;
    var i := 0;
    while i < |entries| && ok
      invariant 0 <= i <= |entries|
      invariant dirBuffer.Valid() && (dirBuffer.buffer == old(dirBuffer.buffer) || fresh(dirBuffer.buffer))
      invariant ok ==> multiset(Present(dirBuffer.Listing())) == multiset(entries[..i])
      invariant dirBuffer.initialCapacity > 0 && dirBuffer.Used() >= 0
      invariant all ==
                (ok &&
                 AllObtained(entries[i..], dirBuffer.capacity, dirBuffer.initialCapacity, dirBuffer.Used(), allocate))
    {
      ok := FillNext(dirBuffer, entries, i, allocate);
      i := i + 1;
    }
    assert ok ==> entries[..i] == entries;
    EndObtained(entries, dirBuffer.capacity, dirBuffer.initialCapacity, dirBuffer.Used(), allocate);
    dirBuffer.Release();
    dirBuffer.RecordsArePresent();
  }

  /** Reads a page of a directory through its buffer, filling the buffer first when there is none or the listing starts
      over.  `entries` is what the file system reports, `complete` whether it gets to the end of its list. */
  method BufferedReadDirectory(dirBuffer: DirectoryBuffer?, entries: seq<Record>, complete: bool, header: bool,
                               allocate: nat -> bool, marker: Option<Wide>, page: array<Byte>, length: nat)
    returns (current: DirectoryBuffer?, ok: bool, transferred: nat, ghost from: nat)
    requires dirBuffer != null ==> dirBuffer.Ready() && dirBuffer.buffer != page
    requires DirInfos(entries)
    requires length <= page.Length
    requires forall n: nat :: allocate(n) ==> n <= INT_MAX
    modifies dirBuffer, (if dirBuffer == null then {} else {dirBuffer.buffer}), page
    ensures current != null ==> current.Ready() && current.buffer != page
    ensures dirBuffer != null ==> current == dirBuffer
    ensures dirBuffer == null && current != null ==> fresh(current) && fresh(current.buffer)
    ensures dirBuffer != null ==> current.buffer == old(dirBuffer.buffer) || fresh(current.buffer)
    ensures ok ==> current != null
    ensures ok <==>
            if dirBuffer == null then header && complete && AllObtained(entries, 0, 256, 0, allocate)
            else if marker.None? then
              dirBuffer.initialCapacity > 0 && complete &&
              AllObtained(entries, old(dirBuffer.capacity), dirBuffer.initialCapacity, 0, allocate)
            else true
    ensures ok && (marker.None? || dirBuffer == null) ==>
              complete && multiset(current.Records()) == multiset(entries)
    ensures marker.Some? && dirBuffer != null ==> ok && current.Records() == old(dirBuffer.Records())
    ensures ok ==> from <= |current.Records()|
    ensures ok ==> (if marker.None? then from == 0 else ResumesAt(current.Records(), BeforeNul(marker.value), from))
    ensures ok ==> IsPage(page[..], 0, current.Records()[from..], length, transferred)
    ensures !ok ==> transferred == 0 && page[..] == old(page[..])
  {
    hide *;
    current, ok, transferred, from := dirBuffer, true, 0, 0;
    var acquired := false;
    if current == null {
      if !header {
        return current, false, 0, 0;
      }
      current := new DirectoryBuffer(0);
      InitialCapacityIs(0);
      acquired := true;
    } else if marker.None? {
      current.ReadyIsValid();
      current.Reset();
      acquired := true;
    }
    if acquired {
      current.ReadyIsValid();
      var filled := FillAll(current, entries, allocate);
      ok := filled && complete;
    }
    if !ok {
      return;
    }
    transferred, from := DirectoryBuffer.Read(current, marker, page, length, 0);
  }

  // ---------- a whole directory through its buffer ----------

  lemma InBoth(a: seq<Record>, b: seq<Record>, r: Record)
    requires multiset(a) == multiset(b)
    ensures r in a <==> r in b
  {
    assert r in a <==> r in multiset(a);
    assert r in b <==> r in multiset(b);
  }

  lemma TwoPlaces(a: seq<Record>, i: nat, j: nat)
    requires i < j < |a| && a[i] == a[j]
    ensures multiset(a)[a[i]] >= 2
  {
    assert a == a[..i] + [a[i]] + a[i + 1..j] + [a[j]] + a[j + 1..];
  }

  lemma {:induction false} TwiceIn(a: seq<Record>, r: Record) returns (i: nat, j: nat)
    requires multiset(a)[r] >= 2
    ensures i < j < |a| && a[i] == a[j] == r
  {
    assert a == [a[0]] + a[1..];
    if a[0] == r {
      assert r in multiset(a[1..]);
      var k :| 0 <= k < |a[1..]| && a[1..][k] == r;
      i, j := 0, k + 1;
    } else {
      i, j := TwiceIn(a[1..], r);
      i, j := i + 1, j + 1;
    }
  }

  lemma EqualIsSymmetric(a: Wide, b: Wide)
    ensures NameEqual(a, b) <==> NameEqual(b, a)
  {
  }

  lemma DistinctPair(recs: seq<Record>, i: nat, j: nat)
    requires NamesDistinct(recs) && i < |recs| && j < |recs| && i != j
    ensures !NameEqual(NameIn(recs[i]), NameIn(recs[j]))
  {
    hide NameEqual, NameIn;
    EqualIsSymmetric(NameIn(recs[i]), NameIn(recs[j]));
  }

  /** Whether names are distinct does not depend on the order of the records. */
  lemma DistinctPermuted(entries: seq<Record>, recs: seq<Record>)
    requires multiset(entries) == multiset(recs) && NamesDistinct(entries)
    ensures NamesDistinct(recs)
  {
    hide NameEqual, NameIn;
    forall a, b | 0 <= a < b < |recs| ensures !NameEqual(NameIn(recs[a]), NameIn(recs[b])) {
      var r, q := recs[a], recs[b];
      if r == q {
        TwoPlaces(recs, a, b);
        var i, j := TwiceIn(entries, r);
        DistinctPair(entries, i, j);
      } else {
        InBoth(entries, recs, r);
        InBoth(entries, recs, q);
        var i :| 0 <= i < |entries| && entries[i] == r;
        var j :| 0 <= j < |entries| && entries[j] == q;
        DistinctPair(entries, i, j);
      }
    }
  }

  lemma NulFreePermuted(entries: seq<Record>, recs: seq<Record>)
    requires multiset(entries) == multiset(recs) && NulFree(entries)
    ensures NulFree(recs)
  {
    hide NameIn;
    forall k | 0 <= k < |recs| ensures NUL !in NameIn(recs[k]) {
      InBoth(entries, recs, recs[k]);
      var i :| 0 <= i < |entries| && entries[i] == recs[k];
    }
  }

  /** Every page has room for every one of the records, and for an end mark. */
  ghost predicate Ample(recs: seq<Record>, lengths: seq<nat>)
  {
    forall i :: 0 <= i < |lengths| ==> 2 <= lengths[i] && forall r :: r in recs ==> AlignUp(|r|) <= lengths[i]
  }

  lemma AmplePermuted(entries: seq<Record>, recs: seq<Record>, lengths: seq<nat>)
    requires multiset(entries) == multiset(recs) && Ample(entries, lengths)
    ensures Ample(recs, lengths)
  {
    forall r | r in recs ensures r in entries { InBoth(entries, recs, r); }
  }

  lemma {:induction false} AmpleIsRoomy(recs: seq<Record>, marker: Option<Wide>, lengths: seq<nat>)
    requires Ample(recs, lengths)
    ensures Roomy(recs, marker, lengths)
    decreases |lengths|
  {
    hide NextMarker, PageRecords, ResumeIndex;
    if lengths != [] {
      assert Ample(recs, lengths[1..]);
      AmpleIsRoomy(recs, NextMarker(marker, PageRecords(recs[ResumeIndex(recs, marker)..], lengths[0])), lengths[1..]);
    }
  }

  /** An ample first page comes with a name or with the end mark. */
  lemma FirstIsAmple(recs: seq<Record>, lengths: seq<nat>)
    requires Ample(recs, lengths) && lengths != []
    ensures PageEnds(recs, lengths[0]) || NextMarker(None, PageRecords(recs, lengths[0])).Some?
    ensures recs[ResumeIndex(recs, None)..] == recs
  {
    hide BeforeNul, NameIn;
    if recs != [] { assert recs[0] in recs; }
  }

  lemma MarkerStays(marker: Option<Wide>, read: seq<Record>)
    ensures marker.Some? ==> NextMarker(marker, read).Some?
  {
  }

  /** What a page holds that was read behind a marker. */
  lemma PageIs(page: seq<Byte>, recs: seq<Record>, marker: Option<Wide>, from: nat, length: nat, transferred: nat)
    requires StrictlyOrdered(recs) && AllSelfSized(recs) && (marker.Some? ==> NUL !in marker.value)
    requires if marker.None? then from == 0 else ResumesAt(recs, BeforeNul(marker.value), from)
    requires from <= |recs| && IsPage(page, 0, recs[from..], length, transferred)
    ensures transferred <= |page|
    ensures var rest := recs[ResumeIndex(recs, marker)..];
            Walk(page, 0, transferred) == PageRecords(rest, length) &&
              (EndMarked(page, 0, transferred) <==> PageEnds(rest, length))
  {
    hide *;
    ResumesWhere(recs, marker, from);
    RestIsWhole(recs, from);
    PageReads(page, 0, recs[from..], length, transferred);
  }

  /** One call through the buffer, and what is in the page it fills. */
  method ReadBufferedPage(dirBuffer: DirectoryBuffer?, entries: seq<Record>, complete: bool, header: bool,
                          allocate: nat -> bool, marker: Option<Wide>, page: array<Byte>, length: nat)
    returns (current: DirectoryBuffer?, ok: bool, read: seq<Record>, ended: bool)
    requires dirBuffer != null ==> dirBuffer.Ready() && dirBuffer.buffer != page
    requires dirBuffer != null && marker.Some? ==> multiset(dirBuffer.Records()) == multiset(entries)
    requires DirInfos(entries) && NamesDistinct(entries) && (marker.Some? ==> NUL !in marker.value)
    requires length <= page.Length && forall n: nat :: allocate(n) ==> n <= INT_MAX
    modifies dirBuffer, (if dirBuffer == null then {} else {dirBuffer.buffer}), page
    ensures current != null ==> current.Ready() && current.buffer != page
    ensures dirBuffer != null ==> current == dirBuffer
    ensures dirBuffer == null && current != null ==> fresh(current) && fresh(current.buffer)
    ensures dirBuffer != null ==> current.buffer == old(dirBuffer.buffer) || fresh(current.buffer)
    ensures ok <==>
            if dirBuffer == null then header && complete && AllObtained(entries, 0, 256, 0, allocate)
            else if marker.None? then
              dirBuffer.initialCapacity > 0 && complete &&
              AllObtained(entries, old(dirBuffer.capacity), dirBuffer.initialCapacity, 0, allocate)
            else true
    ensures ok ==> current != null && multiset(current.Records()) == multiset(entries)
    ensures marker.Some? && dirBuffer != null ==> current.Records() == old(dirBuffer.Records())
    ensures ok ==> var recs := current.Records();
                   var rest := recs[ResumeIndex(recs, marker)..];
                   StrictlyOrdered(recs) && read == PageRecords(rest, length) && (ended <==> PageEnds(rest, length))
    ensures !ok ==> read == [] && !ended
  {
    hide *;
    var transferred;
    ghost var from;
    current, ok, transferred, from :=
      BufferedReadDirectory(dirBuffer, entries, complete, header, allocate, marker, page, length);
    read, ended := [], false;
    if ok {
      current.ReadyCount();
      current.RecordsAreWhole();
      ghost var recs := current.Records();
      DistinctPermuted(entries, recs);
      DistinctIsStrict(recs);
      PageIs(page[..], recs, marker, from, length, transferred);
      read, ended := Walk(page[..], 0, transferred), EndMarked(page[..], 0, transferred);
    }
  }

  /** Reads further pages through a buffer that has been filled, each behind the last name that was read. */
  method ReadFurther(dirBuffer: DirectoryBuffer, entries: seq<Record>, complete: bool, header: bool,
                     allocate: nat -> bool, first: Wide, lengths: seq<nat>, page: array<Byte>)
    returns (read: seq<Record>, ended: bool)
    requires dirBuffer.Ready() && dirBuffer.buffer != page && multiset(dirBuffer.Records()) == multiset(entries)
    requires DirInfos(entries) && NamesDistinct(entries) && NUL !in first
    requires forall i :: 0 <= i < |lengths| ==> lengths[i] <= page.Length
    requires forall n: nat :: allocate(n) ==> n <= INT_MAX
    modifies dirBuffer, dirBuffer.buffer, page
    ensures dirBuffer.Ready() && dirBuffer.Records() == old(dirBuffer.Records())
    ensures read == ReadPages(dirBuffer.Records(), Some(first), lengths).0
    ensures ended == ReadPages(dirBuffer.Records(), Some(first), lengths).1
  {
    hide *;
    ghost var recs := dirBuffer.Records();
    ReadingEnds(recs, Some(first), lengths);
    read, ended := [], false;
    var marker: Option<Wide> := Some(first);
    var i := 0;
    while i < |lengths| && !ended
      invariant 0 <= i <= |lengths| && marker.Some? && NUL !in marker.value
      invariant dirBuffer.Ready() && dirBuffer.buffer != page && dirBuffer.Records() == recs
      invariant dirBuffer.buffer == old(dirBuffer.buffer) || fresh(dirBuffer.buffer)
      invariant ReadPages(recs, Some(first), lengths).0 ==
                read + (if ended then [] else ReadPages(recs, marker, lengths[i..]).0)
      invariant ReadPages(recs, Some(first), lengths).1 == (ended || ReadPages(recs, marker, lengths[i..]).1)
    {
      ReadOn(recs, marker, lengths, i);
      var current, ok, more;
      current, ok, more, ended :=
        ReadBufferedPage(dirBuffer, entries, complete, header, allocate, marker, page, lengths[i]);
      read := read + more;
      MarkerIsCut(marker, more);
      MarkerStays(marker, more);
      marker := NextMarker(marker, more);
      i := i + 1;
    }
    ReadingEnds(recs, marker, lengths);
  }

  /** Lists a directory through its buffer: a first call without a marker, then calls with the last name that was read.
      What is read in the end is what the file system has reported, sorted, each record exactly once. */
  method ListThroughBuffer(dirBuffer: DirectoryBuffer?, entries: seq<Record>, complete: bool, header: bool,
                           allocate: nat -> bool, lengths: seq<nat>, page: array<Byte>)
    returns (current: DirectoryBuffer?, ok: bool, read: seq<Record>, ended: bool)
    requires dirBuffer != null ==> dirBuffer.Ready() && dirBuffer.buffer != page
    requires DirInfos(entries) && NamesDistinct(entries)
    requires lengths != [] && forall i :: 0 <= i < |lengths| ==> lengths[i] <= page.Length
    requires forall n: nat :: allocate(n) ==> n <= INT_MAX
    modifies dirBuffer, (if dirBuffer == null then {} else {dirBuffer.buffer}), page
    ensures ok <==>
            if dirBuffer == null then header && complete && AllObtained(entries, 0, 256, 0, allocate)
            else
              dirBuffer.initialCapacity > 0 && complete &&
              AllObtained(entries, old(dirBuffer.capacity), dirBuffer.initialCapacity, 0, allocate)
    ensures !ok ==> read == [] && !ended
    ensures ok && NulFree(entries) && Ample(entries, lengths) && |lengths| > |entries| ==>
              ended && Ordered(read) && multiset(read) == multiset(entries)
  {
    hide *;
    current, ok, read, ended :=
      ReadBufferedPage(dirBuffer, entries, complete, header, allocate, None, page, lengths[0]);
    if !ok {
      return;
    }
    ghost var recs := current.Records();
    current.ReadyCount();
    FirstAndRest(entries, recs, lengths);
    MarkerIsCut(None, read);
    var marker := NextMarker(None, read);
    if !ended && marker.Some? {
      var more;
      more, ended := ReadFurther(current, entries, complete, header, allocate, marker.value, lengths[1..], page);
      read := read + more;
    }
  }

  /** A first ample page and the rest behind it make up the whole listing. */
  lemma FirstAndRest(entries: seq<Record>, recs: seq<Record>, lengths: seq<nat>)
    requires multiset(recs) == multiset(entries) && NamesDistinct(entries) && Ordered(recs) && lengths != []
    ensures recs[ResumeIndex(recs, None)..] == recs
    ensures var first := PageRecords(recs, lengths[0]);
            var marker := NextMarker(None, first);
            NulFree(entries) && Ample(entries, lengths) && |lengths| > |entries| ==>
              if PageEnds(recs, lengths[0]) then first == recs
              else
                && marker.Some? && ReadPages(recs, marker, lengths[1..]).1
                && first + ReadPages(recs, marker, lengths[1..]).0 == recs
  {
    hide *;
    WholeRest(recs);
    if NulFree(entries) && Ample(entries, lengths) && |lengths| > |entries| {
      AmpleIsListed(entries, recs, lengths);
      FirstUnfolds(recs, lengths);
    }
  }

  lemma AmpleIsListed(entries: seq<Record>, recs: seq<Record>, lengths: seq<nat>)
    requires multiset(recs) == multiset(entries) && NamesDistinct(entries) && Ordered(recs) && lengths != []
    requires NulFree(entries) && Ample(entries, lengths) && |lengths| > |entries|
    ensures ReadPages(recs, None, lengths).0 == recs && ReadPages(recs, None, lengths).1
    ensures PageEnds(recs, lengths[0]) || NextMarker(None, PageRecords(recs, lengths[0])).Some?
  {
    hide *;
    AmplePermuted(entries, recs, lengths);
    FirstIsAmple(recs, lengths);
    SameLength(entries, recs);
    NulFreePermuted(entries, recs);
    DistinctPermuted(entries, recs);
    AmpleIsRoomy(recs, None, lengths);
    WholeDirectoryIsListed(recs, lengths);
  }

  lemma FirstUnfolds(recs: seq<Record>, lengths: seq<nat>)
    requires lengths != []
    ensures var first, ends := PageRecords(recs, lengths[0]), PageEnds(recs, lengths[0]);
            var rest := ReadPages(recs, NextMarker(None, first), lengths[1..]);
            && ReadPages(recs, None, lengths).0 == (if ends then first else first + rest.0)
            && ReadPages(recs, None, lengths).1 == (ends || rest.1)
  {
    hide PageRecords, PageEnds, NextMarker;
    WholeRest(recs);
  }

  lemma WholeRest(recs: seq<Record>)
    ensures recs[ResumeIndex(recs, None)..] == recs
  {
  }

  lemma SameLength(a: seq<Record>, b: seq<Record>)
    requires multiset(a) == multiset(b)
    ensures |a| == |b|
  {
    assert |multiset(a)| == |a| && |multiset(b)| == |b|;
  }
}
