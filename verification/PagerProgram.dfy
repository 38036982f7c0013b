/** The pager as the program that runs it: the fault handler, the retried accesses and the flush loop, working in
    place on the mapped pages and the metadata array, with the region at the other end of a connection. */
module PagerProgram {
  import opened Basics
  import opened Wire
  import opened PagerModel
  import opened RemoteRegion

  // What the handler does with a signal.
  datatype Handled = Resume | Chain | Exit

  class DisaggPager {
    const remote: Remote
    const bytes: nat
    const mem: array<Page>
    const prot: array<Prot>
    const meta: array<Meta>

    ghost function State(): Pager
      reads remote, remote.net, mem, prot, meta
    {
      Pager(remote.Pages(), mem[..], prot[..], meta[..])
    }

    ghost predicate Mapped()
      reads remote, remote.net, mem, prot, meta
    {
      Valid(State()) && remote.Valid() && bytes <= mem.Length * PAGE_SZ
    }

    constructor (remote: Remote, bytes: nat)
      requires remote.Valid() && bytes <= remote.net.numPages * PAGE_SZ
      ensures this.remote == remote && this.bytes == bytes && fresh(mem) && fresh(prot) && fresh(meta)
      ensures Mapped() && State() == Open(remote.Pages())
    {
      var n := remote.net.numPages;
      this.remote, this.bytes := remote, bytes;
      mem := new Page[n](_ => ZeroPage());
      prot := new Prot[n](_ => NoAccess);
      meta := new Meta[n](_ => Meta(false, false, false));
    }

    /** segv_handler; `answered` says whether the server answers the read, if one is made.  The program exits exactly when a
        page must be fetched and is not. */
    method Handle(addr: nat, answered: bool) returns (r: Handled)
      requires Mapped()
      modifies mem, prot, meta, remote, remote.net.io
      ensures Mapped()
      ensures r.Resume? ==> addr < bytes && State() == Fault(old(State()), addr / PAGE_SZ) != old(State())
      ensures !r.Resume? ==> State() == old(State())
      ensures r.Chain? <==> addr >= bytes || old(meta[addr / PAGE_SZ]).writable
      ensures r.Exit? <==> addr < bytes && !old(meta[addr / PAGE_SZ]).resident && !answered
    {
      hide Remote.Valid, RegionPages;
      if addr >= bytes {
        return Chain;
      }
      var off := addr - addr % PAGE_SZ;
      var i := off / PAGE_SZ;
      assert i == addr / PAGE_SZ < mem.Length;
      if !meta[i].resident {
        var ok, buf := remote.ReadPage(i, answered);
        if !ok {
          return Exit;
        }
        prot[i] := ReadOnly;
        mem[i] := buf;
        meta[i] := meta[i].(resident := true, writable := false);
        return Resume;
      }
      if !meta[i].writable {
        prot[i] := ReadWrite;
        meta[i] := meta[i].(writable := true, dirty := true);
        return Resume;
      }
      return Chain;
    }

    // The processor retries the access after every handled fault; only a page that has to be fetched can make it fail.
    method Access(addr: nat, write: bool, answered: bool) returns (ok: bool)
      requires Mapped() && addr < bytes
      modifies mem, prot, meta, remote, remote.net.io
      ensures Mapped()
      ensures ok <==> old(meta[addr / PAGE_SZ]).resident || answered
      ensures ok ==> State() == Touch(old(State()), addr / PAGE_SZ, write) && Allows(prot[addr / PAGE_SZ], write)
    {
      hide Remote.Valid, RegionPages;
      var i := addr / PAGE_SZ;
      ghost var faults := 0;
      assert MetaOk(meta[i], prot[i]);
      while !Allows(prot[i], write)
        invariant Mapped() && faults <= 2
        invariant faults > 0 ==> old(meta[i]).resident || answered
        invariant faults == 0 ==> State() == old(State())
        invariant faults == 1 ==> !Allows(old(prot[i]), write) && State() == Fault(old(State()), i)
        invariant faults == 2 ==> !Allows(Fault(old(State()), i).prot[i], write)
                                  && State() == Fault(Fault(old(State()), i), i)
        invariant faults == 2 ==> Allows(prot[i], write)
        decreases 2 - faults
      {
        var r := Handle(addr, answered);
        if r.Exit? {
          return false;
        }
        faults := faults + 1;
      }
      ok := true;
    }

    /** A load: what flat memory holds there. */
    method Load(addr: nat, answered: bool) returns (ok: bool, v: Byte)
      requires Mapped() && addr < bytes
      modifies mem, prot, meta, remote, remote.net.io
      ensures Mapped()
      ensures ok <==> old(meta[addr / PAGE_SZ]).resident || answered
      ensures ok ==> State() == Touch(old(State()), addr / PAGE_SZ, false)
                     && v == mem[addr / PAGE_SZ][addr % PAGE_SZ]
    {
      ok := Access(addr, false, answered);
      v := if ok then mem[addr / PAGE_SZ][addr % PAGE_SZ] else 0;
    }

    method Store(addr: nat, v: Byte, answered: bool) returns (ok: bool)
      requires Mapped() && addr < bytes
      modifies mem, prot, meta, remote, remote.net.io
      ensures Mapped()
      ensures ok <==> old(meta[addr / PAGE_SZ]).resident || answered
      ensures ok ==> var i, p := addr / PAGE_SZ, Touch(old(State()), addr / PAGE_SZ, true);
                     State() == p.(mem := p.mem[i := p.mem[i][addr % PAGE_SZ := v]])
    {
      ok := Access(addr, true, answered);
      if ok {
        var i := addr / PAGE_SZ;
        mem[i] := mem[i][addr % PAGE_SZ := v];
      }
    }

    /** disagg_flush, for any fate of each of its writes. */
    method Flush(fates: nat -> Fate) returns (ok: bool)
      requires Mapped()
      modifies remote, remote.net.io, meta
      ensures Mapped()
      ensures Flushed(State(), ok) == FlushFrom(old(State()), 0, fates)
    {
      hide Remote.Valid, RegionPages, Arrived;
      var i := 0;
      while i < mem.Length
        invariant i <= mem.Length && Mapped() && mem[..] == old(mem[..]) && prot[..] == old(prot[..])
        invariant FlushFrom(old(State()), 0, fates) == FlushFrom(State(), i, fates)
      {
        if meta[i].resident && meta[i].dirty {
          ghost var before := State();
          var acked := remote.WritePage(i, mem[i], fates(i));
          if !acked {
            assert State() == before.(remote := remote.Pages());
            return false;
          }
          meta[i] := meta[i].(dirty := false);
          assert State() == before.(remote := before.remote[i := before.mem[i]],
            meta := before.meta[i := before.meta[i].(dirty := false)]);
        }
        i := i + 1;
      }
      ok := true;
    }
  }
}
