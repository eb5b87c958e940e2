/**
  The built-in file-backed MMIO plugin. `file_plugin_alloc` parses its
  argument `[flags:]filename`, where every flag must be `w` (writable);
  the file is then mapped and served by `file_plugin_load` and
  `file_plugin_store`. Opening and mapping the file is host I/O and enters
  as the parameter `openAndMap`; the mapped file is an array of `length`
  bytes.
*/
module FilePlugin {
  import opened Types

  /** The outcome of a successful parse of the plugin argument. */
  datatype Args = Args(filename: string, writable: bool)

  /** `strchr(s, c)` for a `c` that occurs in `s`: the index of its first occurrence. */
  function IndexOf(s: string, c: char): (i: nat)
    requires c in s
    ensures i < |s| && s[i] == c && c !in s[..i]
  {
    if s[0] == c then 0 else 1 + IndexOf(s[1..], c)
  }

  /**
    What the argument parser accepts: without a `:` the whole argument is the
    file name, read-only; with one, the text before the first `:` must be
    all `w` (at least one making the file writable) and the file name is
    what follows it.
  */
  function ArgsSpec(args: string): Option<Args> {
    if ':' !in args then Some(Args(args, false))
    else
      var colon := IndexOf(args, ':');
      if forall j :: 0 <= j < colon ==> args[j] == 'w' then Some(Args(args[colon + 1..], colon > 0))
      else None
  }

  /** The argument parsing of `file_plugin_alloc`; `None` is its `return NULL`. */
  method ParseArgs(args: string) returns (r: Option<Args>)
    ensures r == ArgsSpec(args)
  {
    if ':' !in args {
      return Some(Args(args, false));
    }
    var colon := IndexOf(args, ':');
    var writable := false;
    var flag := 0;
    while flag < colon
      invariant 0 <= flag <= colon
      invariant forall j :: 0 <= j < flag ==> args[j] == 'w'
      invariant writable <==> flag > 0
    {
      if args[flag] == 'w' {
        writable := true;
      } else {
        return None;
      }
      flag := flag + 1;
    }
    return Some(Args(args[colon + 1..], writable));
  }

  /** `file_plugin_data`: the mapped file, its length and the writable flag. */
  class FileData {
    const length: nat
    const writable: bool
    /** The `mmap`ed contents of the file (`addr` in the source). */
    const mapped: array<Byte>

    ghost predicate Valid()
      reads this
    {
      mapped.Length == length && length > 0
    }

    constructor (contents: seq<Byte>, writable: bool)
      requires |contents| > 0
      ensures Valid() && fresh(mapped)
      ensures mapped[..] == contents && length == |contents| && this.writable == writable
    {
      length := |contents|;
      this.writable := writable;
      mapped := new Byte[|contents|](i requires 0 <= i < |contents| => contents[i]);
    }

    /** `file_plugin_load`: copy `width` bytes at `offset` out of the mapped file. */
    method Load(offset: U64, width: U64, buffer: array<Byte>) returns (ok: bool)
      requires Valid() && width <= buffer.Length
      modifies buffer
      ensures ok <==> AccessInRange(offset, width, length)
      ensures ok ==> buffer[..width] == old(mapped[offset..offset + width])
      ensures ok ==> buffer[width..] == old(buffer[width..])
      ensures !ok ==> buffer[..] == old(buffer[..])
    {
      if !AccessInRange(offset, width, length) {
        return false;
      }
      var chunk := mapped[offset..offset + width];
      forall i | 0 <= i < width {
        buffer[i] := chunk[i];
      }
      return true;
    }

    /** `file_plugin_store`: copy `width` bytes into the mapped file at `offset`. */
    method Store(offset: U64, width: U64, buffer: array<Byte>) returns (ok: bool)
      requires Valid() && width <= buffer.Length
      modifies mapped
      ensures ok <==> writable && AccessInRange(offset, width, length)
      ensures ok ==> mapped[..] == old(mapped[..offset]) + old(buffer[..width]) + old(mapped[offset + width..])
      ensures !ok ==> mapped[..] == old(mapped[..])
    {
      if !writable || !AccessInRange(offset, width, length) {
        return false;
      }
      var chunk := buffer[..width];
      forall i | 0 <= i < width {
        mapped[offset + i] := chunk[i];
      }
      assert mapped[..] == old(mapped[..offset]) + chunk + old(mapped[offset + width..]);
      return true;
    }
  }

  /** The check the loads and stores of this model apply: the whole access lies in the file. */
  predicate AccessInRange(offset: U64, width: U64, length: nat) {
    offset < length && width <= length - offset
  }

  /** The check `file_plugin_load` and `file_plugin_store` make as written: only the first byte. */
  predicate AcceptsAsWritten(offset: U64, length: nat) {
    !(offset >= length)
  }

  /**
    The written check admits accesses that run past the end of the mapping:
    an 8-byte access at the last byte of a one-page file.
  */
  lemma AsWrittenAdmitsOverrun()
    ensures AcceptsAsWritten(4095, 4096) && !AccessInRange(4095, 8, 4096)
  {
  }

  /** The corrected check implies the written one and differs only when the access overruns. */
  lemma CorrectedRefinesAsWritten(offset: U64, width: U64, length: nat)
    ensures AccessInRange(offset, width, length) ==> AcceptsAsWritten(offset, length)
    ensures AcceptsAsWritten(offset, length) && !AccessInRange(offset, width, length) ==>
              offset + width > length
  {
  }

  /**
    `file_plugin_alloc`: parse the argument, open and map the named file
    (read-write when writable) and wrap it; NULL when the argument is
    malformed, the file cannot be opened or mapped, or it is empty.
  */
  method Alloc(args: string, openAndMap: (string, bool) -> Option<seq<Byte>>) returns (r: FileData?)
    ensures ArgsSpec(args).None? ==> r == null
    ensures ArgsSpec(args).Some? ==>
              var a := ArgsSpec(args).value;
              var file := openAndMap(a.filename, a.writable);
              && (r == null <==> file.None? || |file.value| == 0)
              && (r != null ==> fresh(r) && fresh(r.mapped) && r.Valid() &&
                                r.mapped[..] == file.value && r.writable == a.writable)
  {
    var parsed := ParseArgs(args);
    if parsed.None? {
      return null;
    }
    var file := openAndMap(parsed.value.filename, parsed.value.writable);
    if file.None? || |file.value| == 0 {
      return null;
    }
    r := new FileData(file.value, parsed.value.writable);
  }
}
