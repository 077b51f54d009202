/** The file system the vault reads and writes: a map from path to
    contents, the set of paths where opening for writing or removing fails,
    the set of existing paths that cannot be opened for reading, and the
    record of every open and remove performed. */
module FileSystem {
  import opened Common

  /** One effect on the file system. A write or a remove is recorded only
      when it succeeded; a read is recorded whenever a file was opened for
      reading, whether or not it existed. */
  datatype Event = Read(path: string) | Wrote(path: string, data: bytes) | Removed(path: string)

  function Apply(files: map<string, bytes>, e: Event): map<string, bytes> {
    match e
    case Read(_) => files
    case Wrote(p, d) => files[p := d]
    case Removed(p) => files - {p}
  }

  /** The files once the effects of `events` have taken place, in order. */
  function Replay(files: map<string, bytes>, events: seq<Event>): map<string, bytes>
    decreases |events|
  {
    if events == [] then files else Replay(Apply(files, events[0]), events[1..])
  }

  /** Replaying one more event applies it to the files replayed so far. */
  lemma {:induction false} ReplaySnoc(files: map<string, bytes>, events: seq<Event>, e: Event)
    ensures Replay(files, events + [e]) == Apply(Replay(files, events), e)
    decreases |events|
  {
    if events != [] {
      assert (events + [e])[1..] == events[1..] + [e];
      ReplaySnoc(Apply(files, events[0]), events[1..], e);
    }
  }

  /** Effects on other paths leave `path` as it was. */
  lemma {:induction false} ReplayElsewhere(files: map<string, bytes>, events: seq<Event>, path: string)
    requires forall i :: 0 <= i < |events| ==> events[i].path != path
    ensures path in Replay(files, events) <==> path in files
    ensures path in files ==> Replay(files, events)[path] == files[path]
    decreases |events|
  {
    if events != [] {
      ReplayElsewhere(Apply(files, events[0]), events[1..], path);
    }
  }

  /** The outcome of an operation together with its effects. */
  datatype Run<T> = Run(result: Result<T>, events: seq<Event>)

  class Disk {
    var files: map<string, bytes>
    /** paths where `open(path, "w")` or `os.remove(path)` raises */
    var denied: set<string>
    /** paths that exist but where `open(path, "rb")` raises: no read
        permission, or a directory */
    var unreadable: set<string>
    ghost var trace: seq<Event>

    constructor (files: map<string, bytes>, denied: set<string>, unreadable: set<string>)
      ensures this.files == files && this.denied == denied && this.unreadable == unreadable && trace == []
    {
      this.files := files;
      this.denied := denied;
      this.unreadable := unreadable;
      trace := [];
    }

    /** `os.path.exists(path)` */
    function Exists(path: string): (b: bool)
      reads this
      ensures b <==> path in files
    {
      path in files
    }

    /** `open(path).read()`: `open` raises `FileNotFoundError` on a missing
        path and `PermissionError` or `IsADirectoryError` on an unreadable
        one. */
    method ReadFile(path: string) returns (r: Result<bytes>)
      modifies this`trace
      ensures path !in files ==> r == Err(Raised(FileMissing(path)))
      ensures path in files && path in unreadable ==> r == Err(Raised(ReadDenied(path)))
      ensures path in files && path !in unreadable ==> r == Ok(files[path])
      ensures trace == old(trace) + [Read(path)]
    {
      trace := trace + [Read(path)];
      if path !in files {
        r := Err(Raised(FileMissing(path)));
      } else if path in unreadable {
        r := Err(Raised(ReadDenied(path)));
      } else {
        r := Ok(files[path]);
      }
    }

    /** `open(path, "w").write(data)` */
    method WriteFile(path: string, data: bytes) returns (ok: bool)
      modifies this`files, this`trace
      ensures ok <==> path !in denied
      ensures files == (if ok then old(files)[path := data] else old(files))
      ensures trace == old(trace) + (if ok then [Wrote(path, data)] else [])
    {
      ok := path !in denied;
      if ok {
        files := files[path := data];
        trace := trace + [Wrote(path, data)];
      }
    }

    /** `os.remove(path)` on a path that exists */
    method RemoveFile(path: string) returns (ok: bool)
      modifies this`files, this`trace
      ensures ok <==> path !in denied
      ensures files == (if ok then old(files) - {path} else old(files))
      ensures trace == old(trace) + (if ok then [Removed(path)] else [])
    {
      ok := path !in denied;
      if ok {
        files := files - {path};
        trace := trace + [Removed(path)];
      }
    }
  }
}
