/** One book's cover files and the row that names one of them: a write tied to a transaction that
    commits or ends any other way. */
module Covers {
  import opened Wrappers

  /** The extensions served, in the order they are looked through. */
  datatype Extension = Jpeg | Jpg | Png | Webp

  const ALLOWED_IMAGE_EXTENSIONS: seq<Extension> := [Jpeg, Jpg, Png, Webp]

  /** A file, by what tells it from a later one under its name, and its bytes. */
  datatype File = File(identity: nat, data: string)

  type Disk = map<Extension, File>

  /** What the end of the transaction has to do: the name written, and the file it is dropped for unless committed. */
  datatype Settlement = Settlement(kept: Extension, discard: Option<nat>)

  // ── One request ───────────────────────────────────────────────────────────

  function Written(disk: Disk, next: nat, extension: Extension, data: string): Disk
  {
    disk[extension := File(next, data)]
  }

  function Swept(disk: Disk, kept: Extension): Disk
  {
    map e | e in disk && e == kept :: disk[e]
  }

  function Discarded(disk: Disk, extension: Extension, identity: nat): Disk
  {
    if extension in disk && disk[extension].identity == identity then disk - {extension} else disk
  }

  function SettlementOf(disk: Disk, before: set<Extension>, extension: Extension): Settlement
  {
    Settlement(
      extension,
      if extension !in before && extension in disk then Some(disk[extension].identity) else None)
  }

  /** On disk, at this place in the order, and no format before it is. */
  ghost predicate IsAt(disk: Disk, e: Extension, i: int)
  {
    && 0 <= i < |ALLOWED_IMAGE_EXTENSIONS| && ALLOWED_IMAGE_EXTENSIONS[i] == e && e in disk
    && forall f :: f in ALLOWED_IMAGE_EXTENSIONS[..i] ==> f !in disk
  }

  ghost predicate IsFirst(disk: Disk, e: Extension)
  {
    exists i :: IsAt(disk, e, i)
  }

  /** The directory of one book, and its row. */
  class Shelf {
    var disk: Disk
    var next: nat
    var row: Option<Extension>
    var pending: Option<Settlement>

    /** Every file is older than the next one, and the row's file is the only one. */
    ghost predicate Agrees()
      reads this
    {
      && (forall e :: e in disk ==> disk[e].identity < next)
      && disk.Keys == (if row.Some? then {row.value} else {})
      && pending.None?
    }

    /** Replaces the book's cover: `write`, `settle`, the row, and then the transaction's end. */
    method Upload(extension: Extension, data: string, commits: bool)
      requires Agrees()
      modifies this
      ensures Agrees()
      ensures commits ==> row == Some(extension) && disk[extension].data == data
      ensures !commits ==> row == old(row) && disk.Keys == old(disk.Keys)
      ensures !commits && row != Some(extension) ==> disk == old(disk)
      ensures !commits && row == Some(extension) ==> disk[extension].data == data
    {
      var before := OnDisk();
      Write(extension, data);
      Settle(extension, before);
      if commits {
        row := Some(extension);
        Commit();
      } else {
        Rollback();
      }
    }

    method OnDisk() returns (found: set<Extension>)
      ensures found == disk.Keys
    {
      found := {};
      for i := 0 to |ALLOWED_IMAGE_EXTENSIONS|
        invariant found == set e | e in ALLOWED_IMAGE_EXTENSIONS[..i] && e in disk
      {
        var e := ALLOWED_IMAGE_EXTENSIONS[i];
        assert ALLOWED_IMAGE_EXTENSIONS[..i + 1] == ALLOWED_IMAGE_EXTENSIONS[..i] + [e];
        if e in disk {
          found := found + {e};
        }
      }
      EveryExtensionIsAllowed();
      assert ALLOWED_IMAGE_EXTENSIONS[..|ALLOWED_IMAGE_EXTENSIONS|] == ALLOWED_IMAGE_EXTENSIONS;
    }

    /** A rename onto the name: a file of its own, whatever stood there. */
    method Write(extension: Extension, data: string)
      modifies this`disk, this`next
      ensures disk == Written(old(disk), old(next), extension, data) && next == old(next) + 1
    {
      disk := disk[extension := File(next, data)];
      next := next + 1;
    }

    method Settle(extension: Extension, before: set<Extension>)
      modifies this`pending
      ensures pending == Some(SettlementOf(disk, before, extension))
    {
      pending := Some(Settlement(extension, None));
      if extension !in before && extension in disk {
        pending := Some(Settlement(extension, Some(disk[extension].identity)));
      }
    }

    method Commit()
      requires pending.Some?
      modifies this`disk, this`pending
      ensures disk == Swept(old(disk), old(pending).value.kept) && pending.None?
    {
      Sweep(pending.value.kept);
      pending := None;
    }

    method Rollback()
      requires pending.Some?
      modifies this`disk, this`pending
      ensures pending.None?
      ensures var s := old(pending).value;
              disk == if s.discard.Some? then Discarded(old(disk), s.kept, s.discard.value) else old(disk)
    {
      if pending.value.discard.Some? {
        var e := pending.value.kept;
        if e in disk && disk[e].identity == pending.value.discard.value {
          disk := disk - {e};
        }
      }
      pending := None;
    }

    /** Removes every format but one. */
    method Sweep(kept: Extension)
      modifies this`disk
      ensures disk == Swept(old(disk), kept)
    {
      ghost var before := disk;
      for i := 0 to |ALLOWED_IMAGE_EXTENSIONS|
        invariant disk == map e | e in before && (e == kept || e !in ALLOWED_IMAGE_EXTENSIONS[..i]) :: before[e]
      {
        var e := ALLOWED_IMAGE_EXTENSIONS[i];
        assert ALLOWED_IMAGE_EXTENSIONS[..i + 1] == ALLOWED_IMAGE_EXTENSIONS[..i] + [e];
        if e != kept {
          disk := disk - {e};
        }
      }
      EveryExtensionIsAllowed();
      assert ALLOWED_IMAGE_EXTENSIONS[..|ALLOWED_IMAGE_EXTENSIONS|] == ALLOWED_IMAGE_EXTENSIONS;
    }

    /** The file a reader is given: the first there is, in a fixed order. */
    method FirstOnDisk() returns (found: Option<Extension>)
      ensures found.Some? ==> IsFirst(disk, found.value)
      ensures found.None? <==> disk == map[]
      ensures Agrees() ==> found == row
    {
      EveryExtensionIsAllowed();
      for i := 0 to |ALLOWED_IMAGE_EXTENSIONS|
        invariant forall e :: e in ALLOWED_IMAGE_EXTENSIONS[..i] ==> e !in disk
      {
        var e := ALLOWED_IMAGE_EXTENSIONS[i];
        assert ALLOWED_IMAGE_EXTENSIONS[..i + 1] == ALLOWED_IMAGE_EXTENSIONS[..i] + [e];
        if e in disk {
          assert IsAt(disk, e, i);
          return Some(e);
        }
      }
      assert ALLOWED_IMAGE_EXTENSIONS[..|ALLOWED_IMAGE_EXTENSIONS|] == ALLOWED_IMAGE_EXTENSIONS;
      assert disk.Keys == {};
      found := None;
    }
  }

  lemma EveryExtensionIsAllowed()
    ensures forall e: Extension :: e in ALLOWED_IMAGE_EXTENSIONS
  {
    forall e: Extension ensures e in ALLOWED_IMAGE_EXTENSIONS {
      var i := match e case Jpeg => 0 case Jpg => 1 case Png => 2 case Webp => 3;
      assert ALLOWED_IMAGE_EXTENSIONS[i] == e;
    }
  }

  // ── Requests in any order ─────────────────────────────────────────────────

  /** The directory while several requests are about it, and what each has queued. */
  datatype World = World(disk: Disk, next: nat, pending: map<nat, Settlement>)

  /** One request's step; each is one step, the check and the unlink of a discard among them. */
  datatype Step =
    | Write(extension: Extension, data: string)
    | Settle(tx: nat, extension: Extension, before: set<Extension>)
    | Commit(tx: nat)
    | Rollback(tx: nat)

  function Next(w: World, step: Step): World
  {
    match step
    case Write(extension, data) => World(Written(w.disk, w.next, extension, data), w.next + 1, w.pending)
    case Settle(tx, extension, before) => w.(pending := w.pending[tx := SettlementOf(w.disk, before, extension)])
    case Commit(tx) =>
      if tx in w.pending then World(Swept(w.disk, w.pending[tx].kept), w.next, w.pending - {tx}) else w
    case Rollback(tx) =>
      if tx !in w.pending then w
      else
        var s := w.pending[tx];
        World(
          if s.discard.Some? then Discarded(w.disk, s.kept, s.discard.value) else w.disk, w.next, w.pending - {tx})
  }

  function Run(w: World, steps: seq<Step>): World
  {
    if steps == [] then w else Next(Run(w, steps[..|steps| - 1]), steps[|steps| - 1])
  }

  /** Files and queued discards alike are older than the next file, so no later file is taken for one of them. */
  ghost predicate IsOrdered(w: World)
  {
    && (forall e :: e in w.disk ==> w.disk[e].identity < w.next)
    && (forall tx :: tx in w.pending && w.pending[tx].discard.Some? ==> w.pending[tx].discard.value < w.next)
  }

  lemma {:induction false} EveryRunIsOrdered(w: World, steps: seq<Step>)
    requires IsOrdered(w)
    ensures IsOrdered(Run(w, steps)) && w.next <= Run(w, steps).next
  {
    if steps != [] {
      EveryRunIsOrdered(w, steps[..|steps| - 1]);
    }
  }

  /** What a request queued stays queued until its own end. */
  lemma {:induction false} PendingStays(w: World, steps: seq<Step>, tx: nat)
    requires tx in w.pending && forall i :: 0 <= i < |steps| ==> steps[i].Write? || steps[i].tx != tx
    ensures tx in Run(w, steps).pending && Run(w, steps).pending[tx] == w.pending[tx]
  {
    if steps != [] {
      PendingStays(w, steps[..|steps| - 1], tx);
    }
  }

  /** A write that is not committed is undone where its name was new, and where it was not, the file
      there keeps its name and nothing else changes. */
  lemma RolledBackWriteIsUndone(w: World, tx: nat, extension: Extension, data: string)
    requires IsOrdered(w) && tx !in w.pending
    ensures var steps := [Write(extension, data), Settle(tx, extension, w.disk.Keys), Rollback(tx)];
            Run(w, steps) == World(
              if extension in w.disk then w.disk[extension := File(w.next, data)] else w.disk, w.next + 1, w.pending)
  {
    var steps := [Write(extension, data), Settle(tx, extension, w.disk.Keys), Rollback(tx)];
    RunOfThree(w, steps[0], steps[1], steps[2]);
    var wrote := Next(w, steps[0]);
    EndedAsBefore(w.pending, tx, SettlementOf(wrote.disk, w.disk.Keys, extension));
    if extension !in w.disk {
      assert wrote.disk - {extension} == w.disk;
    }
  }

  /** A write that is committed leaves the book its one file, whatever formats there were. */
  lemma CommittedWriteStandsAlone(w: World, tx: nat, extension: Extension, data: string, before: set<Extension>)
    requires tx !in w.pending
    ensures var steps := [Write(extension, data), Settle(tx, extension, before), Commit(tx)];
            Run(w, steps) == World(map[extension := File(w.next, data)], w.next + 1, w.pending)
  {
    var steps := [Write(extension, data), Settle(tx, extension, before), Commit(tx)];
    RunOfThree(w, steps[0], steps[1], steps[2]);
    var wrote := Next(w, steps[0]);
    EndedAsBefore(w.pending, tx, SettlementOf(wrote.disk, before, extension));
    SweptAlone(wrote.disk, extension);
  }

  lemma EndedAsBefore(pending: map<nat, Settlement>, tx: nat, s: Settlement)
    requires tx !in pending
    ensures pending[tx := s] - {tx} == pending
  {
  }

  lemma SweptAlone(disk: Disk, kept: Extension)
    requires kept in disk
    ensures Swept(disk, kept) == map[kept := disk[kept]]
  {
  }

  lemma RunOfThree(w: World, a: Step, b: Step, c: Step)
    ensures Run(w, [a, b, c]) == Next(Next(Next(w, a), b), c)
  {
    assert [a, b, c][..2] == [a, b] && [a, b][..1] == [a] && [a][..0] == [];
    assert Run(w, [a]) == Next(w, a);
    assert Run(w, [a, b]) == Next(Run(w, [a]), b);
  }

  /** Whatever other requests do between, a request that ends without committing removes exactly the file
      that stood under its name when it settled, where that name was new to it: one put there since,
      by anybody, stays. */
  lemma LaterFilesSurviveARollback(w: World, tx: nat, extension: Extension, before: set<Extension>, between: seq<Step>, e: Extension)
    requires IsOrdered(w) && forall i :: 0 <= i < |between| ==> between[i].Write? || between[i].tx != tx
    ensures var settled := Next(w, Settle(tx, extension, before));
            var here := Run(settled, between);
            var after := Next(here, Rollback(tx));
            && (e in here.disk && here.disk[e].identity >= w.next ==> e in after.disk && after.disk[e] == here.disk[e])
            && (e in here.disk ==>
                  (e !in after.disk <==>
                    e == extension && extension !in before && e in w.disk && here.disk[e].identity == w.disk[e].identity))
            && (e in after.disk ==> e in here.disk && after.disk[e] == here.disk[e])
  {
    var settled := Next(w, Settle(tx, extension, before));
    PendingStays(settled, between, tx);
    EveryRunIsOrdered(settled, between);
  }
}
