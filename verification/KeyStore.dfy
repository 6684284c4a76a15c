/**
  What the key handling code works on: the key files, the channel table with its session, and
  the process-wide key. Files and committed rows survive a crash; `seen` collects every pair
  of them that a crash could have left behind, torn file writes included.
 */
module KeyStore {
  import opened Base
  import opened Secrets

  // The key file, its ".new" and ".bak" neighbours, and the temporary of an atomic write.
  datatype Path = Active | Staging | Backup | Temp

  datatype Durable = Durable(files: map<Path, string>, rows: Rows)

  // An OSError before the file is opened, or after n characters have reached it.
  datatype WriteFault = NoFault | Refused | TornAfter(n: nat)

  function FileAt(files: map<Path, string>, path: Path): Option<string> {
    if path in files then Some(files[path]) else None
  }

  ghost predicate SameBut(a: map<Path, string>, b: map<Path, string>, except: set<Path>) {
    forall p :: p in except || FileAt(a, p) == FileAt(b, p)
  }

  /** `state` is `before` with some prefix of the content at this path. */
  ghost predicate Torn(state: Durable, before: Durable, path: Path, content: string) {
    && state.rows == before.rows
    && path in state.files && state.files[path] <= content
    && state.files == before.files[path := state.files[path]]
  }

  class Machine {
    var files: map<Path, string>
    var rows: Rows
    var view: Rows           // the table as the open session sees it
    var fernet: Option<Key>
    ghost var seen: set<Durable>

    constructor (files: map<Path, string>, rows: Rows)
      ensures this.files == files && this.rows == rows && view == rows && fernet == None
        && seen == {Durable(files, rows)}
    {
      this.files, this.rows, view, fernet := files, rows, rows, None;
      seen := {Durable(files, rows)};
    }

    ghost function Now(): Durable
      reads this
    {
      Durable(files, rows)
    }

    method Write(path: Path, content: string, fault: WriteFault) returns (ok: bool)
      modifies this`files, this`seen
      ensures ok == fault.NoFault?
      ensures ok ==> files == old(files)[path := content]
      ensures fault.Refused? ==> files == old(files)
      ensures !fault.Refused? ==> Torn(Now(), old(Now()), path, content)
      ensures seen >= old(seen) && forall s | s in seen :: s in old(seen) || Torn(s, old(Now()), path, content)
      ensures !fault.Refused? ==> Durable(old(files)[path := ""], rows) in seen
    {
      if fault.Refused? {
        return false;
      }
      var size := if fault.TornAfter? && fault.n < |content| then fault.n else |content|;
      files := files[path := ""];
      seen := seen + {Now()};
      for k := 0 to size
        invariant files == old(files)[path := content[..k]]
        invariant seen >= old(seen) && forall s | s in seen :: s in old(seen) || Torn(s, old(Now()), path, content)
        invariant Durable(old(files)[path := ""], rows) in seen
      {
        files := files[path := content[..k + 1]];
        seen := seen + {Now()};
      }
      assert size == |content| ==> content[..size] == content;
      ok := fault.NoFault?;
    }

    // os.replace
    method Replace(source: Path, target: Path, fails: bool) returns (ok: bool)
      requires source in files && source != target
      modifies this`files, this`seen
      ensures ok == !fails
      ensures files == if fails then old(files) else old(files)[target := old(files)[source]] - {source}
      ensures seen == old(seen) + if fails then {} else {Now()}
    {
      ok := !fails;
      if ok {
        files := files[target := files[source]] - {source};
        seen := seen + {Now()};
      }
    }

    method Unlink(path: Path, fails: bool) returns (ok: bool)
      modifies this`files, this`seen
      ensures ok == !fails
      ensures files == if fails then old(files) else old(files) - {path}
      ensures seen == old(seen) + if fails then {} else {Now()}
    {
      ok := !fails;
      if ok {
        files := files - {path};
        seen := seen + {Now()};
      }
    }

    method Commit(fails: bool) returns (ok: bool)
      modifies this`rows, this`seen
      ensures ok == !fails
      ensures rows == if fails then old(rows) else view
      ensures seen == old(seen) + if fails then {} else {Now()}
    {
      ok := !fails;
      if ok {
        rows := view;
        seen := seen + {Now()};
      }
    }

    // db.rollback(), and what closing the session does to uncommitted changes
    method Rollback()
      modifies this`view
      ensures view == rows
    {
      view := rows;
    }
  }
}
