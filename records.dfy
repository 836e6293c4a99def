/**
 Directory entries, the per-file record built from each file entry, and the
 HTML label that carries a record's four fields into its rectangle.
 */
module Records {
  import opened Wrappers
  import FileName
  import FileSize

  /** A directory entry as the directory handle enumerates it; only file entries
      carry the size and modification time that getFile reports. */
  datatype Entry =
    | FileEntry(name: string, size: nat, lastModified: int)
    | DirectoryEntry(name: string)

  /** The host's renderings the model leaves open: the floating-point text
      parseFloat((n / d).toFixed(2)) of a quotient, and the locale-dependent
      toLocaleDateString of a millisecond timestamp. */
  datatype Host = Host(twoDecimals: (nat, nat) -> string, dateString: int -> string)

  /** The record pushed for each file: name, extension, size text, date text. */
  datatype FileRecord = FileRecord(name: string, extension: string, size: string, lastModified: string)

  /** A file entry whose size the unit table can express. */
  predicate Describable(e: Entry)
  {
    e.FileEntry? && FileSize.InUnitRange(e.size)
  }

  /** The record built from a file entry. */
  function Describe(e: Entry, host: Host): (r: FileRecord)
    requires Describable(e)
    ensures r.name == e.name
    ensures FileName.IsTextAfterLastDot(e.name, r.extension)
    ensures r.size == FileSize.FormatFileSize(e.size, host.twoDecimals)
    ensures e.size == 0 ==> r.size == "0 Bytes"
    ensures r.lastModified == host.dateString(e.lastModified)
  {
    FileName.ExtensionAfterLastDot(e.name);
    FileRecord(
      e.name,
      FileName.Extension(e.name),
      FileSize.FormatFileSize(e.size, host.twoDecimals),
      host.dateString(e.lastModified))
  }

  /** The fixed pieces of the label template, around name, extension, size and date. */
  const LabelHead: string := "<div style=\"font-family: Arial; font-size: 12px; padding: 5px;\">\n      <div style=\"font-weight: bold; margin-bottom: 5px;\">"
  const AfterName: string := "</div>\n      <div>Extension: "
  const AfterExtension: string := "</div>\n      <div>Size: "
  const AfterSize: string := "</div>\n      <div>Modified: "
  const LabelTail: string := "</div>\n    </div>"

  const Tag: char := '<'

  /** The label text of a record: the template filled with its fields in order. */
  function Label(f: FileRecord): (text: string)
    ensures |text| == |LabelHead| + |f.name| + |AfterName| + |f.extension| + |AfterExtension|
                      + |f.size| + |AfterSize| + |f.lastModified| + |LabelTail|
    ensures text[..|LabelHead|] == LabelHead
    ensures text[|LabelHead|..|LabelHead| + |f.name|] == f.name
  {
    LabelHead + (f.name + (AfterName + (f.extension + (AfterExtension + (f.size + (AfterSize + (f.lastModified + LabelTail)))))))
  }

  /** No field holds a '<', so no field can be mistaken for the template's markup
      (the label does not escape its fields). */
  predicate PlainFields(f: FileRecord)
  {
    Tag !in f.name && Tag !in f.extension && Tag !in f.size && Tag !in f.lastModified
  }

  /** The longest prefix of `s` without a '<'. */
  function UpToTag(s: string): (field: string)
    ensures |field| <= |s| && field == s[..|field|] && Tag !in field
    ensures |field| < |s| ==> s[|field|] == Tag
  {
    if s == [] || s[0] == Tag then [] else [s[0]] + UpToTag(s[1..])
  }

  lemma {:induction false} UpToTagOfField(field: string, rest: string)
    requires Tag !in field && |rest| > 0 && rest[0] == Tag
    ensures UpToTag(field + rest) == field
  {
    if field != [] {
      assert (field + rest)[1..] == field[1..] + rest;
      UpToTagOfField(field[1..], rest);
    }
  }

  /** Reads a field up to the next '<' and then the markup `sep`; gives the field and what follows. */
  function ReadField(s: string, sep: string): Option<(string, string)>
  {
    var field := UpToTag(s);
    var after := s[|field|..];
    if |sep| <= |after| && after[..|sep|] == sep then Some((field, after[|sep|..])) else None
  }

  lemma ReadFieldOfField(field: string, sep: string, rest: string)
    requires Tag !in field && |sep| > 0 && sep[0] == Tag
    ensures ReadField(field + (sep + rest), sep) == Some((field, rest))
  {
    UpToTagOfField(field, sep + rest);
    assert (field + (sep + rest))[|field|..] == sep + rest;
  }

  lemma ReadFieldSome(s: string, sep: string)
    requires ReadField(s, sep).Some?
    ensures var (field, rest) := ReadField(s, sep).value; Tag !in field && s == field + (sep + rest)
  {
  }

  /** Recovers the four fields from a label. */
  function ParseLabel(text: string): Option<FileRecord>
  {
    if |LabelHead| <= |text| && text[..|LabelHead|] == LabelHead then
      match ReadField(text[|LabelHead|..], AfterName)
      case None => None
      case Some((name, s1)) =>
        match ReadField(s1, AfterExtension)
        case None => None
        case Some((extension, s2)) =>
          match ReadField(s2, AfterSize)
          case None => None
          case Some((size, s3)) =>
            match ReadField(s3, LabelTail)
            case None => None
            case Some((lastModified, s4)) =>
              if s4 == [] then Some(FileRecord(name, extension, size, lastModified)) else None
    else None
  }

  /** Each piece of markup after a field starts with '<'. */
  lemma MarkupOpensWithTag()
    ensures |AfterName| > 0 && AfterName[0] == Tag
    ensures |AfterExtension| > 0 && AfterExtension[0] == Tag
    ensures |AfterSize| > 0 && AfterSize[0] == Tag
    ensures |LabelTail| > 0 && LabelTail[0] == Tag
  {
  }

  /** The label carries name, extension, size and date in that order: they can be read back from it. */
  lemma LabelRoundTrip(f: FileRecord)
    requires PlainFields(f)
    ensures ParseLabel(Label(f)) == Some(f)
  {
    MarkupOpensWithTag();
    var s3 := f.lastModified + LabelTail;
    var s2 := f.size + (AfterSize + s3);
    var s1 := f.extension + (AfterExtension + s2);
    var s0 := f.name + (AfterName + s1);
    assert (LabelHead + s0)[..|LabelHead|] == LabelHead;
    assert (LabelHead + s0)[|LabelHead|..] == s0;
    ReadFieldOfField(f.name, AfterName, s1);
    ReadFieldOfField(f.extension, AfterExtension, s2);
    ReadFieldOfField(f.size, AfterSize, s3);
    assert s3 == f.lastModified + (LabelTail + []);
    ReadFieldOfField(f.lastModified, LabelTail, []);
  }

  /** Every text that parses is exactly the label of the record it parses to. */
  lemma ParseLabelExact(text: string)
    requires ParseLabel(text).Some?
    ensures PlainFields(ParseLabel(text).value) && Label(ParseLabel(text).value) == text
  {
    var s0 := text[|LabelHead|..];
    assert text == LabelHead + s0;
    ReadFieldSome(s0, AfterName);
    var (name, s1) := ReadField(s0, AfterName).value;
    ReadFieldSome(s1, AfterExtension);
    var (extension, s2) := ReadField(s1, AfterExtension).value;
    ReadFieldSome(s2, AfterSize);
    var (size, s3) := ReadField(s2, AfterSize).value;
    ReadFieldSome(s3, LabelTail);
    var (lastModified, s4) := ReadField(s3, LabelTail).value;
    assert s3 == lastModified + LabelTail;
  }

  /** Distinct plain records never share a label. */
  lemma LabelInjective(f: FileRecord, g: FileRecord)
    requires PlainFields(f) && PlainFields(g) && Label(f) == Label(g)
    ensures f == g
  {
    LabelRoundTrip(f);
    LabelRoundTrip(g);
  }
}
