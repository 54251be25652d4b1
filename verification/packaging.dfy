/** The archive's entry map (src/index.ts:263-268): `transcript.md` holds the
    transcript and every downloaded file sits under `attachments/`. The
    compressed container itself is not modelled. */
module Packaging {
  import opened Messages

  const TranscriptName: string := "transcript.md"

  function EntryName(name: string): string
  {
    "attachments/" + name
  }

  /** An entry's content: the transcript text (encoded by `strToU8`) or a file's bytes. */
  datatype Content = TextEntry(text: string) | BinaryEntry(data: seq<byte>)

  /** `files[i]` is the last file with its name. */
  predicate LastNamed(files: seq<File>, i: int)
  {
    0 <= i < |files| && forall j :: i < j < |files| ==> files[j].name != files[i].name
  }

  function Names(files: seq<File>): set<string>
  {
    set f | f in files :: EntryName(f.name)
  }

  /** `entries[`attachments/${f.name}`] = f.data` for each file in order. */
  function AddFiles(entries: map<string, Content>, files: seq<File>): map<string, Content>
    decreases |files|
  {
    if |files| == 0 then entries
    else AddFiles(entries[EntryName(files[0].name) := BinaryEntry(files[0].data)], files[1..])
  }

  /** The entry map: the transcript under `transcript.md` and, for every file name,
      the data of the last file with that name. */
  function Entries(md: string, files: seq<File>): (e: map<string, Content>)
    ensures e.Keys == {TranscriptName} + Names(files)
    ensures e[TranscriptName] == TextEntry(md)
    ensures forall i :: LastNamed(files, i) ==> e[EntryName(files[i].name)] == BinaryEntry(files[i].data)
  {
    var start := map[TranscriptName := TextEntry(md)];
    AddFilesSpec(start, files);
    assert TranscriptName !in Names(files) by {
      forall f | f in files ensures EntryName(f.name) != TranscriptName {
        assert EntryName(f.name)[0] == 'a';
      }
    }
    AddFiles(start, files)
  }

  lemma EntryNameInjective(a: string, b: string)
    requires EntryName(a) == EntryName(b)
    ensures a == b
  {
    var n := |"attachments/"|;
    assert a == EntryName(a)[n..] && b == EntryName(b)[n..];
  }

  lemma {:induction false} AddFilesSpec(entries: map<string, Content>, files: seq<File>)
    ensures AddFiles(entries, files).Keys == entries.Keys + Names(files)
    ensures forall k :: k in entries && k !in Names(files) ==> AddFiles(entries, files)[k] == entries[k]
    ensures forall i :: LastNamed(files, i) ==> AddFiles(entries, files)[EntryName(files[i].name)] == BinaryEntry(files[i].data)
    decreases |files|
  {
    if |files| > 0 {
      var f := files[0];
      var next := entries[EntryName(f.name) := BinaryEntry(f.data)];
      var rest := files[1..];
      AddFilesSpec(next, rest);
      assert Names(files) == {EntryName(f.name)} + Names(rest) by {
        assert forall g :: g in files <==> g == f || g in rest;
      }
      var result := AddFiles(entries, files);
      assert result == AddFiles(next, rest);
      forall i | LastNamed(files, i)
        ensures result[EntryName(files[i].name)] == BinaryEntry(files[i].data)
      {
        if i == 0 {
          forall g | g in rest ensures EntryName(g.name) != EntryName(f.name) {
            var j :| 0 <= j < |rest| && rest[j] == g;
            assert files[j + 1] == g;
            if EntryName(g.name) == EntryName(f.name) {
              EntryNameInjective(g.name, f.name);
            }
          }
          assert EntryName(f.name) !in Names(rest);
        } else {
          assert LastNamed(rest, i - 1);
        }
      }
    }
  }
}
