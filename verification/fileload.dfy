/**
 * Reading a file chosen in the open dialog into document text: the size
 * ceiling, the memory map and the two decodings the editor tries, first
 * UTF-8 and then windows-1251. The decoders themselves are parameters
 * (`Codecs`); the file is its bytes plus whether it can be opened.
 */
module FileLoad {
  import opened Wrappers

  newtype byte = x: int | 0 <= x < 256

  /** The largest file the editor agrees to open: 90 GiB, in bytes. */
  const MaxFileSize: nat := 90 * 1024 * 1024 * 1024

  /**
   * The file at the chosen path: its bytes (so its size is |bytes|) and
   * whether opening it in read-write binary mode succeeds.
   */
  datatype DiskFile = DiskFile(bytes: seq<byte>, openable: bool)

  /** The two decoders, as total functions; None stands for a decoding error. */
  datatype Codecs = Codecs(utf8: seq<byte> -> Option<string>, cp1251: seq<byte> -> Option<string>)

  /** Why opening a file produced no text. */
  datatype LoadError =
    | Cancelled             // the open dialog returned no path
    | TooLarge              // the file is bigger than MaxFileSize
    | OpenFailed            // the file cannot be opened or mapped (an empty file cannot be mapped)
    | EncodingUndetermined  // neither decoding succeeded

  /** A memory map of a file together with its read position. */
  datatype MemoryMap = MemoryMap(data: seq<byte>, pos: nat)

  /**
   * `read()` on a memory map: returns everything from the read position to
   * the end and leaves the position at the end.
   */
  function ReadRest(m: MemoryMap): (r: (seq<byte>, MemoryMap))
    requires m.pos <= |m.data|
    ensures |r.0| == |m.data| - m.pos
    ensures m.data == m.data[..m.pos] + r.0
    ensures r.1.data == m.data && r.1.pos == |m.data|
  {
    (m.data[m.pos..], MemoryMap(m.data, |m.data|))
  }

  /** Once a map has been read to the end, reading it again yields no bytes. */
  lemma SecondReadIsEmpty(m: MemoryMap)
    requires m.pos <= |m.data|
    ensures ReadRest(ReadRest(m).1).0 == []
  {
  }

  /** Opening and mapping the file; both failures end in the same error report. */
  function MapFile(file: DiskFile): (r: Result<MemoryMap, LoadError>)
    ensures r.Success? <==> file.openable && |file.bytes| > 0
    ensures r.Success? ==> r.value == MemoryMap(file.bytes, 0)
    ensures r.Failure? ==> r.error == OpenFailed
  {
    if !file.openable || |file.bytes| == 0 then Failure(OpenFailed)
    else Success(MemoryMap(file.bytes, 0))
  }

  /** True when the file passes the dialog, the size ceiling and the mapping. */
  predicate Accepted(chosen: string, file: DiskFile)
  {
    chosen != "" && |file.bytes| <= MaxFileSize && file.openable && |file.bytes| > 0
  }

  /**
   * Loading as the editor is written: after the UTF-8 attempt has read the
   * whole map, the windows-1251 fallback reads the map AGAIN and so decodes
   * the empty byte string, not the file. With the real windows-1251 codec,
   * which decodes no bytes to the empty text, the last clause is the
   * corollary that the "encoding undetermined" error is unreachable.
   */
  function LoadAsWritten(chosen: string, file: DiskFile, codecs: Codecs): (r: Result<string, LoadError>)
    ensures r == Failure(Cancelled) <==> chosen == ""
    ensures r == Failure(TooLarge) <==> chosen != "" && |file.bytes| > MaxFileSize
    ensures r == Failure(OpenFailed) <==>
              chosen != "" && |file.bytes| <= MaxFileSize && (!file.openable || |file.bytes| == 0)
    ensures r == Failure(EncodingUndetermined) <==>
              Accepted(chosen, file) && codecs.utf8(file.bytes).None? && codecs.cp1251([]).None?
    ensures Accepted(chosen, file) && (codecs.utf8(file.bytes).Some? || codecs.cp1251([]).Some?) ==> r.Success?
    ensures r.Success? ==> Accepted(chosen, file)
    ensures r.Success? && codecs.utf8(file.bytes).Some? ==> r.value == codecs.utf8(file.bytes).value
    ensures r.Success? && codecs.utf8(file.bytes).None? ==> codecs.cp1251([]) == Some(r.value)
    ensures codecs.cp1251([]) == Some("") ==> r != Failure(EncodingUndetermined)
  {
    if chosen == "" then Failure(Cancelled)
    else if |file.bytes| > MaxFileSize then Failure(TooLarge)
    else match MapFile(file)
      case Failure(e) => Failure(e)
      case Success(m0) =>
        var (first, m1) := ReadRest(m0);
        match codecs.utf8(first)
        case Some(text) => Success(text)
        case None =>
          var (second, _) := ReadRest(m1);
          match codecs.cp1251(second)
          case Some(text) => Success(text)
          case None => Failure(EncodingUndetermined)
  }

  /**
   * Loading as evidently intended: the fallback decodes the file's own
   * bytes as windows-1251.
   */
  function Load(chosen: string, file: DiskFile, codecs: Codecs): (r: Result<string, LoadError>)
    ensures r == Failure(Cancelled) <==> chosen == ""
    ensures r == Failure(TooLarge) <==> chosen != "" && |file.bytes| > MaxFileSize
    ensures r == Failure(OpenFailed) <==>
              chosen != "" && |file.bytes| <= MaxFileSize && (!file.openable || |file.bytes| == 0)
    ensures r == Failure(EncodingUndetermined) <==>
              Accepted(chosen, file) && codecs.utf8(file.bytes).None? && codecs.cp1251(file.bytes).None?
    ensures r.Success? ==> Accepted(chosen, file)
    ensures r.Success? && codecs.utf8(file.bytes).Some? ==> r.value == codecs.utf8(file.bytes).value
    ensures r.Success? && codecs.utf8(file.bytes).None? ==> codecs.cp1251(file.bytes) == Some(r.value)
  {
    if chosen == "" then Failure(Cancelled)
    else if |file.bytes| > MaxFileSize then Failure(TooLarge)
    else match MapFile(file)
      case Failure(e) => Failure(e)
      case Success(m0) =>
        var (whole, _) := ReadRest(m0);
        match codecs.utf8(whole)
        case Some(text) => Success(text)
        case None =>
          match codecs.cp1251(whole)
          case Some(text) => Success(text)
          case None => Failure(EncodingUndetermined)
  }

  /** The ceiling is inclusive: a file of exactly MaxFileSize bytes is not refused as too large. */
  lemma CeilingIsInclusive(chosen: string, file: DiskFile, codecs: Codecs)
    requires chosen != ""
    ensures |file.bytes| == MaxFileSize ==> Load(chosen, file, codecs) != Failure(TooLarge)
    ensures |file.bytes| == MaxFileSize + 1 ==> Load(chosen, file, codecs) == Failure(TooLarge)
  {
  }

  /**
   * As written, the text loaded from a file that is not valid UTF-8 does
   * not depend on the file's bytes at all.
   */
  lemma LoadAsWrittenIgnoresNonUtf8Content(chosen: string, f1: DiskFile, f2: DiskFile, codecs: Codecs)
    requires Accepted(chosen, f1) && Accepted(chosen, f2)
    requires codecs.utf8(f1.bytes).None? && codecs.utf8(f2.bytes).None?
    ensures LoadAsWritten(chosen, f1, codecs) == LoadAsWritten(chosen, f2, codecs)
  {
    assert f1.bytes[|f1.bytes|..] == [] == f2.bytes[|f2.bytes|..];
  }

  /**
   * A one-byte file holding 0xFF, which is not UTF-8 and is 'я' in
   * windows-1251. The decoders below agree with the real ones on the
   * two inputs that occur (the empty string and that byte). As written
   * the file loads as the empty text; the intended loading gives "я".
   */
  lemma FallbackDropsContentExample()
    ensures var file := DiskFile([0xFF], true);
            var codecs := Codecs(b => if b == [] then Some("") else None,
                                 b => if b == [] then Some("") else if b == [0xFF] then Some("я") else None);
            LoadAsWritten("notes.txt", file, codecs) == Success("")
            && Load("notes.txt", file, codecs) == Success("я")
  {
    var file := DiskFile([0xFF], true);
    assert file.bytes[1..] == [];
  }
}
