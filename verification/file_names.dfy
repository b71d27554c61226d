/** Where an export is written: `exports/export_<kind>_<time>.<format>`. The
    time is already formatted by the caller (Go's layout
    `2006-01-02T15-04-05Z07-00`); here it is an opaque string. */
module FileNames {
  import Strings

  const Folder := "exports/"

  /** The folder the command creates before writing: a relative path. */
  function ExportFolder(): (dir: string)
    ensures Strings.HasSuffix(dir, "/") && |dir| > 1 && dir[0] != '/'
  {
    Folder
  }

  /** The file inside that folder for `kind`, exported at `stamp`, in
      `format`: a relative path below the folder, named as the older command
      named its file, and ending in the format as its extension. */
  function ExportFileName(kind: string, stamp: string, format: string): (name: string)
    ensures Strings.HasPrefix(name, ExportFolder()) && name[0] != '/'
    ensures Strings.HasSuffix(name, "." + format)
    ensures name[|Folder|..] == LegacyFileName(kind, stamp, format)
  {
    Folder + LegacyFileName(kind, stamp, format)
  }

  /** The older command's name: the same file without the folder. */
  function LegacyFileName(kind: string, stamp: string, format: string): (name: string)
    ensures Strings.HasPrefix(name, "export_" + kind + "_")
    ensures Strings.HasSuffix(name, "." + format)
  {
    "export_" + kind + "_" + stamp + "." + format
  }

  /** Two exports of one kind and format at different times get different
      files, whatever the widths of the two stamps (the zone part of the
      layout is "Z" in UTC and "+01-00" elsewhere). */
  lemma DistinctStamps(kind: string, s1: string, s2: string, format: string)
    requires s1 != s2
    ensures ExportFileName(kind, s1, format) != ExportFileName(kind, s2, format)
  {
    var n1 := ExportFileName(kind, s1, format);
    var n2 := ExportFileName(kind, s2, format);
    if |s1| != |s2| {
      assert |n1| - |s1| == |n2| - |s2|;
    } else {
      var k := |Folder| + |"export_" + kind + "_"|;
      assert n1[k..k + |s1|] == s1;
      assert n2[k..k + |s2|] == s2;
    }
  }
}
