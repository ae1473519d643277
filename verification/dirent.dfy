/**
  How the checker reads one directory slot: which slots it skips, which it
  follows as subdirectories and which it treats as regular files.
 */
module Dirent {
  import opened Fat

  datatype SlotKind =
    | EmptySlot
    | DeletedSlot
    | DotSlot
    | LongName
    | VolumeLabel
    | HiddenDir
    | Subdir(start: u16)
    | RegularFile

  /** Slots the inspector leaves alone: everything but files and visible subdirectories. */
  predicate Skipped(k: SlotKind) {
    !k.Subdir? && !k.RegularFile?
  }

  /** A slot whose first byte marks it neither empty, deleted nor a dot entry. */
  predicate Live(e: Entry)
    requires WellFormedEntry(e)
  {
    e.name[0] != SlotEmpty && e.name[0] != SlotDeleted && e.name[0] != DotMark
  }

  /** The long-name mask includes the volume bit. */
  lemma LongNameIsVolume(a: byte)
    ensures HasAll(a, AttrLongName) ==> HasAny(a, AttrVolume)
  {
  }

  /** The tests of print_dirent, in the order it makes them. */
  function Classify(e: Entry): SlotKind
    requires WellFormedEntry(e)
  {
    if e.name[0] == SlotEmpty then EmptySlot
    else if e.name[0] == SlotDeleted then DeletedSlot
    else if e.name[0] == DotMark then DotSlot
    else if HasAll(e.attr, AttrLongName) then LongName
    else if HasAny(e.attr, AttrVolume) then VolumeLabel
    else if HasAny(e.attr, AttrDirectory) then
      (if HasAll(e.attr, AttrHidden) then HiddenDir else Subdir(e.start))
    else RegularFile
  }

  /**
    What the order of the tests comes to: a slot is empty or deleted by its
    first byte alone; a live slot is a regular file exactly when neither
    the volume nor the directory bit is set, and a visible subdirectory
    exactly when the directory bit is set without the volume bit or the
    full hidden mask.
   */
  lemma ClassifyTests(e: Entry)
    requires WellFormedEntry(e)
    ensures Classify(e) == EmptySlot <==> e.name[0] == SlotEmpty
    ensures Classify(e) == DeletedSlot <==> e.name[0] == SlotDeleted
    ensures Classify(e) == RegularFile <==>
              Live(e) && !HasAny(e.attr, AttrVolume) && !HasAny(e.attr, AttrDirectory)
    ensures Classify(e).Subdir? <==>
              Live(e) && !HasAny(e.attr, AttrVolume) && HasAny(e.attr, AttrDirectory) && !HasAll(e.attr, AttrHidden)
    ensures Classify(e).Subdir? ==> Classify(e).start == e.start
  {
    LongNameIsVolume(e.attr);
  }

  /** An entry with normal attributes and a live first byte is a regular file. */
  lemma NormalEntryIsFile(e: Entry)
    requires WellFormedEntry(e) && e.attr == AttrNormal
    requires e.name[0] != SlotEmpty && e.name[0] != SlotDeleted && e.name[0] != DotMark
    ensures Classify(e) == RegularFile
  {
    assert (AttrNormal as bv8) & (AttrLongName as bv8) == 0;
  }

  /**
    What inspecting a slot may change in it: the first name byte may become
    the deleted mark and the size may be rewritten; nothing else.
   */
  predicate SlotKept(e: Entry, e': Entry)
    requires WellFormedEntry(e)
  {
    && WellFormedEntry(e')
    && e'.ext == e.ext && e'.attr == e.attr && e'.start == e.start
    && e'.name[1..] == e.name[1..]
    && (e'.name[0] == e.name[0] || e'.name[0] == SlotDeleted)
  }

  /** The cluster the walker descends into for a slot of this kind (0: none). */
  function FollowOf(k: SlotKind): u16 {
    if k.Subdir? then k.start else 0
  }

  /**
    find_dirent: the same classification without the volume-label test, so a
    label that also carries the directory bit is followed.
   */
  function FindDirent(e: Entry): (r: u16)
    requires WellFormedEntry(e)
    ensures Classify(e) != VolumeLabel ==> r == FollowOf(Classify(e))
    ensures Classify(e) == VolumeLabel ==>
              (r == if HasAny(e.attr, AttrDirectory) && !HasAll(e.attr, AttrHidden) then e.start else 0)
  {
    if e.name[0] == SlotEmpty || e.name[0] == SlotDeleted || e.name[0] == DotMark then 0
    else if HasAll(e.attr, AttrLongName) then 0
    else if HasAny(e.attr, AttrDirectory) then
      (if !HasAll(e.attr, AttrHidden) then e.start else 0)
    else 0
  }
}
