// When a site is published, and what its manifest says, spelled out.
module PublishAnswers {
  import opened Bytes
  import opened Spelling
  import opened Text
  import opened JamFs
  import opened ComputerService
  import opened LiveFileSystem
  import opened FsInvariant
  import opened Hexadecimal
  import opened Publishing
  import opened SiteManifest
  import opened ComputerAnswers
  import Decimal

  // ----------------------------------------------------------------------- the rows

  /** Every file of the site has a content root of 32 bytes. */
  lemma {:induction false} RowsExactly(fs: Fs, root: Bytes, files: seq<Row>, paths: seq<Bytes>)
    requires forall p :: p in paths ==> p in fs.nodes && |root| <= |p|
    ensures AddRows(fs, root, files, paths).Some? <==> forall p :: p in paths ==> |fs.nodes[p].contentRoot| == 32
    decreases paths
  {
    if paths != [] && |fs.nodes[paths[0]].contentRoot| == 32 {
      RowsExactly(fs, root, files + [RowOf(fs, root, paths[0])], paths[1..]);
      assert forall p :: p in paths <==> p == paths[0] || p in paths[1..];
    }
  }

  lemma JoinOfFour(a: Bytes, b: Bytes, c: Bytes, d: Bytes, sep: Byte)
    ensures Join([a, b, c, d], sep) == a + [sep] + b + [sep] + c + [sep] + d
  {
    assert [c, d][1..] == [d] && [b, c, d][1..] == [c, d] && [a, b, c, d][1..] == [b, c, d];
    assert Join([c, d], sep) == c + [sep] + d;
    assert Join([b, c, d], sep) == b + [sep] + Join([c, d], sep);
    assert Join([a, b, c, d], sep) == a + [sep] + Join([b, c, d], sep);
  }

  /** A line of the manifest. */
  lemma LineSpelled(row: Row)
    ensures Line(row)
            == row.path + Ascii("|") + row.mime + Ascii("|") + Decimal.Print(row.size) + Ascii("|") + row.contentRoot
  {
    BarSpelled();
    JoinOfFour(row.path, row.mime, Decimal.Print(row.size), row.contentRoot, BAR);
  }

  lemma BarSpelled()
    ensures [BAR] == Ascii("|")
  {
  }

  lemma ZeroXSpelled()
    ensures Ascii("0x") == [48, 120]
  {
  }

  /** A file's row: its path below the site's directory, its type, size and content root. */
  lemma RowSpelled(fs: Fs, root: Bytes, path: Bytes)
    requires path in fs.nodes && |root| <= |path| && |fs.nodes[path].contentRoot| == 32
    ensures var row := RowOf(fs, root, path);
            && row.path == (if root == Ascii("/") then path else path[|root|..])
            && row.mime == MimeOrDefault(Plain(fs.nodes[path].mime)) && row.size == fs.nodes[path].size
            && row.contentRoot == Ascii("0x") + Hex(fs.nodes[path].contentRoot)
  {
    RootSpelled();
    ZeroXSpelled();
  }

  // -------------------------------------------------------------------- publishing

  lemma IndexSpelled()
    ensures INDEX_PATH == Ascii("/index.html")
  {
  }

  lemma {:induction false} SortedHasIndex(rows: seq<Row>, before: Before)
    ensures HasIndex(SortRows(rows, before)) <==> exists row :: row in rows && row.path == INDEX_PATH
  {
    var sorted := SortRows(rows, before);
    SortRowsKeeps(rows, before);
    forall row ensures row in sorted <==> row in rows {
      assert row in multiset(sorted) <==> row in multiset(rows);
    }
    if row :| row in rows && row.path == INDEX_PATH {
      assert row in sorted;
    }
  }

  /** Published by the owner when every file has its content root, one is the index page, and
      the manifest has at most 4096 bytes; then the manifest is the only thing that changes. */
  lemma PublishGoes(fs: Fs, sender: Bytes, path: Bytes, now: nat, before: Before, root: Bytes, page: Bytes)
    requires Tidy(fs) && Sound(fs) && Normalize(path, HOME) == Some(root) && WalkOk(fs, root)
    requires page == Ascii("/index.html")
    ensures var (after, r) := Published(fs, sender, path, now, before);
            var rows := SiteRows(fs, root);
            && (r.Some? <==> && Owns(fs, sender) && rows.Some? && (exists row :: row in rows.value && row.path == page)
                             && |ManifestText(SortRows(rows.value, before))| <= 4096)
            && (r.Some? ==> multiset(r.value) == multiset(rows.value)
                            && after == fs.(manifest := Some(Manifest(page, ManifestText(r.value), now, true))))
            && (r.None? ==> after == fs)
  {
    IndexSpelled();
    if SiteRows(fs, root).Some? {
      SortedHasIndex(SiteRows(fs, root).value, before);
      SortRowsKeeps(SiteRows(fs, root).value, before);
    }
  }

  lemma SiteRowsExactly(fs: Fs, root: Bytes)
    requires WalkOk(fs, root)
    ensures SiteRows(fs, root).Some?
            <==> forall path :: LiveFile(fs, path) && Reach(fs, root, path) ==> |fs.nodes[path].contentRoot| == 32
  {
    VisitedInSite(fs, root, Lookup(fs, root));
    RowsExactly(fs, root, [], Visited(fs, root));
    forall path ensures path in Visited(fs, root) <==> LiveFile(fs, path) && Reach(fs, root, path) {
      VisitsReachableFiles(fs, root, path);
    }
  }

  /** Only a published manifest is read, line by line. */
  lemma ManifestSpelled(fs: Fs)
    ensures ReadManifest(fs) == None <==> fs.manifest == None || !fs.manifest.value.published
  {
  }

  /** A line with four fields and a number for its size is a row; any other is none. */
  lemma LineRead(line: Bytes)
    ensures var parts := Split(line, '|' as int);
            ParseLine(line).Some? <==> |parts| >= 4 && parts[2] != [] && Decimal.AllDigits(parts[2])
  {
    var parts := Split(line, '|' as int);
    if |parts| >= 4 && Decimal.AllDigits(parts[2]) {
      ValueNotNegative(parts[2]);
    }
  }

  lemma {:induction false} ValueNotNegative(s: Bytes)
    requires Decimal.AllDigits(s)
    ensures Decimal.Value(s) >= 0
  {
    if s != [] {
      ValueNotNegative(s[..|s| - 1]);
    }
  }
}
