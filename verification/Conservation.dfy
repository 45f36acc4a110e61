/** What the counters of a backup add up to, and what the space check is worth. */
module Conservation {
  import opened Wrappers
  import opened Sequences
  import opened Filesystem
  import opened Walking
  import opened Layout
  import opened Copying
  import opened Payloads
  import opened Manifests
  import opened Backups
  import opened BackupContents
  import opened Filing

  // ---------------------------------------------------- bytes, in no order at all

  ghost function AnyOf(files: map<Path, Bytes>): (p: Path)
    requires files != map[]
    ensures p in files
  {
    assert files.Keys != {};
    var p :| p in files;
    p
  }

  /** The bytes some files hold between them. */
  ghost function Weight(files: map<Path, Bytes>): nat
    decreases |files|
  {
    if files == map[] then 0
    else
      var p := AnyOf(files);
      Fewer(files, p);
      Size(files[p]) + Weight(files - {p})
  }

  lemma Fewer(files: map<Path, Bytes>, p: Path)
    requires p in files
    ensures |files - {p}| < |files|
  {
    assert (files - {p}).Keys == files.Keys - {p};
    assert |files| == |files.Keys| && |files - {p}| == |(files - {p}).Keys|;
  }

  lemma {:induction false} WeightWithout(files: map<Path, Bytes>, p: Path)
    requires p in files
    ensures Weight(files) == Size(files[p]) + Weight(files - {p})
    decreases |files|
  {
    var q := AnyOf(files);
    if q != p {
      Fewer(files, q);
      Fewer(files, p);
      WeightWithout(files - {q}, p);
      WeightWithout(files - {p}, q);
      assert files - {q} - {p} == files - {p} - {q};
    }
  }

  ghost predicate Enumerates(list: seq<Path>, files: map<Path, Bytes>) {
    Distinct(list) && forall p :: p in list <==> p in files
  }

  function Total(data: Tree, list: seq<Path>): nat
    requires forall p :: p in list ==> IsFile(data, p)
  {
    if list == [] then 0
    else
      assert list[0] in list && IsFile(data, list[0]) && forall p :: p in list[1..] ==> p in list;
      Size(data[list[0]].data) + Total(data, list[1..])
  }

  /** However a set of files is enumerated, the sizes add up to its weight. */
  lemma {:induction false} TotalIsWeight(data: Tree, list: seq<Path>, files: map<Path, Bytes>)
    requires Enumerates(list, files) && forall p :: p in files ==> IsFile(data, p) && files[p] == data[p].data
    ensures Total(data, list) == Weight(files)
    decreases |list|
  {
    if list == [] {
      assert files == map[];
    } else {
      var p, rest := list[0], list[1..];
      assert p in list;
      WeightWithout(files, p);
      assert Enumerates(rest, files - {p}) by {
        forall q ensures q in rest <==> q in files - {p} {
          assert q in rest ==> q in list;
        }
      }
      TotalIsWeight(data, rest, files - {p});
    }
  }

  lemma {:induction false} TotalConcat(data: Tree, a: seq<Path>, b: seq<Path>)
    requires forall p :: p in a || p in b ==> IsFile(data, p)
    ensures Total(data, a + b) == Total(data, a) + Total(data, b)
    decreases |a|
  {
    if a == [] {
      assert a + b == b;
    } else {
      assert (a + b)[1..] == a[1..] + b;
      assert a[0] in a;
      TotalConcat(data, a[1..], b);
    }
  }

  // -------------------------------------------------------- one walk of everything

  /** The files of several components, in the order they are walked. */
  function Walked(os: System, data: Tree, components: seq<string>): (files: seq<Path>)
    requires Lawful(os) && WellFormed(data)
    ensures forall p :: p in files ==> IsFile(data, p)
  {
    if components == [] then []
    else
      WalkFilesIsComplete(os, data, [components[0]]);
      var here := WalkFiles(os, data, [components[0]]);
      (if here.None? then [] else here.value) + Walked(os, data, components[1..])
  }

  lemma {:induction false} WalkedIsExact(os: System, data: Tree, components: seq<string>)
    requires Lawful(os) && WellFormed(data) && Distinct(components)
    requires forall c :: c in components ==> !IsFile(data, [c])
    ensures Distinct(Walked(os, data, components))
    ensures forall p :: p in Walked(os, data, components) <==> IsFile(data, p) && p != [] && p[0] in components
    decreases |components|
  {
    if components != [] {
      var c, rest := components[0], components[1..];
      assert c in components && forall d :: d in rest ==> d in components && d != c;
      WalkFilesIsComplete(os, data, [c]);
      WalkedIsExact(os, data, rest);
      var here, there := WalkFiles(os, data, [c]).value, Walked(os, data, rest);
      forall p | p in here ensures p != [] && p[0] == c {
        assert [c] <= p;
      }
      forall p | IsFile(data, p) && p != [] && p[0] == c ensures p in here {
        assert [c] <= p;
      }
      forall i, j | 0 <= i < j < |here + there| ensures (here + there)[i] != (here + there)[j] {
        if i < |here| <= j {
          assert (here + there)[i] in here && (here + there)[j] in there;
        }
      }
      assert forall p :: p in here + there <==> p in here || p in there;
    }
  }

  lemma WalkedEnumerates(os: System, data: Tree)
    requires Lawful(os) && WellFormed(data) && Walkable(data)
    ensures Enumerates(Walked(os, data, COMPONENTS), ComponentFiles(data))
  {
    NamesDiffer();
    WalkedIsExact(os, data, COMPONENTS);
  }

  // ------------------------------------------------------------- the space check

  lemma {:induction false} MeasuredIsTotal(data: Tree, files: seq<Path>)
    requires forall p :: p in files ==> IsFile(data, p)
    ensures Measured(data, files) == Saturate(Total(data, files))
    decreases |files|
  {
    if files != [] {
      var last := files[|files| - 1];
      assert files == files[..|files| - 1] + [last] && last in files;
      MeasuredIsTotal(data, files[..|files| - 1]);
      TotalConcat(data, files[..|files| - 1], [last]);
    }
  }

  lemma {:induction false} WalkedConcat(os: System, data: Tree, a: seq<string>, b: seq<string>)
    requires Lawful(os) && WellFormed(data)
    ensures Walked(os, data, a + b) == Walked(os, data, a) + Walked(os, data, b)
    decreases |a|
  {
    if a == [] {
      assert a + b == b;
    } else {
      assert (a + b)[1..] == a[1..] + b;
      WalkedConcat(os, data, a[1..], b);
    }
  }

  lemma WalkedOne(os: System, data: Tree, component: string)
    requires Lawful(os) && WellFormed(data) && !IsFile(data, [component])
    ensures WalkFiles(os, data, [component]) == Some(Walked(os, data, [component]))
  {
    WalkFilesIsComplete(os, data, [component]);
    var files := WalkFiles(os, data, [component]).value;
    assert [component][1..] == [];
    assert Walked(os, data, [component]) == files + [] == files;
  }

  lemma SaturatedSum(a: nat, b: nat)
    ensures SaturatingAdd(Saturate(a), Saturate(b)) == Saturate(a + b)
  {
  }

  lemma RequiredStep(os: System, data: Tree, before: seq<string>, last: string, bytes: nat, files: seq<Path>)
    requires Lawful(os) && WellFormed(data) && WalkFiles(os, data, [last]) == Some(files)
    requires forall p :: p in files ==> IsFile(data, p)
    requires RequiredBytes(os, data, before) == Some(Saturate(bytes))
    ensures RequiredBytes(os, data, before + [last]) == Some(Saturate(bytes + Total(data, files)))
  {
    MeasuredIsTotal(data, files);
    SaturatedSum(bytes, Total(data, files));
    MeasuredNext(os, data, before, last, files);
  }

  lemma MeasuredNext(os: System, data: Tree, before: seq<string>, last: string, files: seq<Path>)
    requires Lawful(os) && WellFormed(data) && WalkFiles(os, data, [last]) == Some(files)
    requires (forall p :: p in files ==> IsFile(data, p)) && RequiredBytes(os, data, before).Some?
    ensures RequiredBytes(os, data, before + [last]) ==
            Some(SaturatingAdd(RequiredBytes(os, data, before).value, Measured(data, files)))
  {
    var components := before + [last];
    assert components[..|components| - 1] == before && components[|components| - 1] == last;
  }

  lemma RequiredOneMore(os: System, data: Tree, before: seq<string>, last: string)
    requires Lawful(os) && WellFormed(data) && !IsFile(data, [last])
    requires RequiredBytes(os, data, before) == Some(Saturate(Total(data, Walked(os, data, before))))
    ensures RequiredBytes(os, data, before + [last]) == Some(Saturate(Total(data, Walked(os, data, before + [last]))))
  {
    TotalOneMore(os, data, before, last);
    WalkedOne(os, data, last);
    RequiredStep(os, data, before, last, Total(data, Walked(os, data, before)), Walked(os, data, [last]));
  }

  lemma TotalOneMore(os: System, data: Tree, before: seq<string>, last: string)
    requires Lawful(os) && WellFormed(data)
    ensures Total(data, Walked(os, data, before + [last])) ==
            Total(data, Walked(os, data, before)) + Total(data, Walked(os, data, [last]))
  {
    WalkedConcat(os, data, before, [last]);
    TotalConcat(data, Walked(os, data, before), Walked(os, data, [last]));
  }

  lemma {:induction false} RequiredIsTotal(os: System, data: Tree, components: seq<string>)
    requires Lawful(os) && WellFormed(data)
    requires forall c :: c in components ==> !IsFile(data, [c])
    ensures RequiredBytes(os, data, components) == Some(Saturate(Total(data, Walked(os, data, components))))
    decreases |components|
  {
    if components != [] {
      var before, last := components[..|components| - 1], components[|components| - 1];
      assert components == before + [last] && last in components;
      RequiredIsTotal(os, data, before);
      RequiredOneMore(os, data, before, last);
    }
  }

  /** What is measured before a backup: every component byte, up to the width of the counter. */
  lemma RequiredIsWeight(os: System, data: Tree)
    requires Lawful(os) && WellFormed(data) && Walkable(data)
    ensures RequiredBytes(os, data, COMPONENTS) == Some(Saturate(Weight(ComponentFiles(data))))
  {
    RequiredIsTotal(os, data, COMPONENTS);
    WalkedEnumerates(os, data);
    TotalIsWeight(data, Walked(os, data, COMPONENTS), ComponentFiles(data));
  }

  /** The margin is computed without leaving 64 bits. */
  lemma MarginFits(required: nat)
    requires required <= U64_MAX
    ensures required / 100 * MARGIN_PERCENT <= U64_MAX
    ensures required <= Needed(required) <= U64_MAX
    ensures Needed(required) == Saturate(required + required / 100 * MARGIN_PERCENT)
  {
    assert required / 100 * 100 <= required;
  }

  /**
   * A passed space check means room for every component byte, and for the five
   * per cent besides, except in one case: more bytes than the counter holds.
   */
  lemma SpaceCheckIsExact(os: System, settings: Settings, data: Tree)
    requires Lawful(os) && WellFormed(data) && Walkable(data) && settings.available <= U64_MAX
    ensures var weight := Weight(ComponentFiles(data));
            && (weight + weight / 100 * 5 <= U64_MAX ==>
                  (SpaceSuffices(os, settings, data) <==> weight + weight / 100 * 5 <= settings.available))
            && (SpaceSuffices(os, settings, data) ==>
                  (weight <= settings.available <==> weight <= U64_MAX))
  {
    RequiredIsWeight(os, data);
    MarginFits(Saturate(Weight(ComponentFiles(data))));
  }

  // ------------------------------------------------------------ the manifest

  function Kept(files: seq<Path>): seq<Path> {
    if files == [] then [] else (if Skipped(files[0]) then [] else [files[0]]) + Kept(files[1..])
  }

  lemma {:induction false} KeptMembers(files: seq<Path>)
    ensures forall p :: p in Kept(files) <==> p in files && !Skipped(p)
    ensures Distinct(files) ==> Distinct(Kept(files))
  {
    if files != [] {
      KeptMembers(files[1..]);
      assert forall p :: p in files <==> p == files[0] || p in files[1..];
      if Distinct(files) && !Skipped(files[0]) {
        var rest := Kept(files[1..]);
        assert files[0] !in files[1..];
        assert forall i :: 0 <= i < |rest| ==> rest[i] in rest;
      }
    }
  }

  lemma {:induction false} CopiedTotal(env: Env, data: Tree, files: seq<Path>)
    requires forall p :: p in files ==> IsFile(data, p) && p != []
    ensures forall p :: p in Kept(files) ==> p in files
    ensures SumSizes(FilesOf(env, CopiesOf(data, files))) == Total(data, Kept(files))
    ensures |FilesOf(env, CopiesOf(data, files))| == |Kept(files)|
    decreases |files|
  {
    KeptMembers(files);
    if files != [] {
      var rest := files[1..];
      assert files[0] in files && forall p :: p in rest ==> p in files;
      CopiedTotal(env, data, rest);
      var copies := CopiesOf(data, rest);
      if Skipped(files[0]) {
        assert Kept(files) == Kept(rest) && CopiesOf(data, files) == copies;
      } else {
        assert CopiesOf(data, files) == [CopyOf(data, files[0])] + copies && Kept(files) == [files[0]] + Kept(rest);
        OneMoreCopied(env, data, files[0], copies, Kept(rest));
      }
    }
  }

  lemma OneMoreCopied(env: Env, data: Tree, p: Path, copies: seq<Copy>, kept: seq<Path>)
    requires IsFile(data, p) && p != [] && forall q :: q in kept ==> IsFile(data, q)
    requires SumSizes(FilesOf(env, copies)) == Total(data, kept) && |FilesOf(env, copies)| == |kept|
    ensures SumSizes(FilesOf(env, [CopyOf(data, p)] + copies)) == Total(data, [p] + kept)
    ensures |FilesOf(env, [CopyOf(data, p)] + copies)| == |[p] + kept|
  {
    var c, entries := CopyOf(data, p), FilesOf(env, copies);
    assert ([c] + copies)[0] == c && ([c] + copies)[1..] == copies;
    assert ([FileOf(env, c)] + entries)[1..] == entries;
    assert ([p] + kept)[0] == p && ([p] + kept)[1..] == kept;
  }

  lemma {:induction false} SaturatingSumIsSaturated(files: seq<BackupFile>)
    ensures SaturatingSum(files) == Saturate(SumSizes(files))
    decreases |files|
  {
    if files != [] {
      var before, last := files[..|files| - 1], files[|files| - 1];
      assert files == before + [last];
      SaturatingSumIsSaturated(before);
      SumConcat(before, [last]);
      assert SumSizes([last]) == last.size + SumSizes([]);
    }
  }

  function Entries(env: Env, os: System, data: Tree, component: string): seq<BackupFile>
    requires Lawful(os) && WellFormed(data)
  {
    FilesOf(env, ComponentCopies(os, data, component))
  }

  lemma CopiesByComponent(os: System, data: Tree, a: string, b: string, c: string)
    requires Lawful(os) && WellFormed(data)
    ensures AllCopies(os, data, [a, b, c]) ==
            (ComponentCopies(os, data, a) + ComponentCopies(os, data, b)) + ComponentCopies(os, data, c)
  {
    CopiesOfNext(os, data, a, [b, c]);
    CopiesOfNext(os, data, b, [c]);
    CopiesOfNext(os, data, c, []);
    assert [a] + [b, c] == [a, b, c] && [b] + [c] == [b, c] && [c] + [] == [c];
    Regroup(ComponentCopies(os, data, a), ComponentCopies(os, data, b), ComponentCopies(os, data, c));
  }

  lemma CopiesOfNext(os: System, data: Tree, component: string, rest: seq<string>)
    requires Lawful(os) && WellFormed(data)
    ensures AllCopies(os, data, [component] + rest) == ComponentCopies(os, data, component) + AllCopies(os, data, rest)
    ensures rest == [] ==> AllCopies(os, data, [component] + rest) == ComponentCopies(os, data, component)
  {
    assert ([component] + rest)[0] == component && ([component] + rest)[1..] == rest;
    var copies := ComponentCopies(os, data, component);
    assert copies + [] == copies;
  }

  lemma EntriesByComponent(env: Env, os: System, data: Tree)
    requires Lawful(os) && WellFormed(data)
    ensures FilesOf(env, AllCopies(os, data, COMPONENTS)) ==
            Entries(env, os, data, METADATA) + Entries(env, os, data, SYSTEM) + Entries(env, os, data, OBJECTS)
  {
    CopiesByComponent(os, data, METADATA, SYSTEM, OBJECTS);
    ThreeLists(env, ComponentCopies(os, data, METADATA), ComponentCopies(os, data, SYSTEM),
               ComponentCopies(os, data, OBJECTS));
    assert COMPONENTS == [METADATA, SYSTEM, OBJECTS];
  }

  lemma ThreeLists(env: Env, a: seq<Copy>, b: seq<Copy>, c: seq<Copy>)
    ensures FilesOf(env, (a + b) + c) == FilesOf(env, a) + FilesOf(env, b) + FilesOf(env, c)
  {
    FilesOfConcat(env, a + b, c);
    FilesOfConcat(env, a, b);
  }

  function Counts(m: Manifest): nat {
    if |m.components| != 3 then 0
    else m.components[0].fileCount + m.components[1].fileCount + m.components[2].fileCount
  }

  function ComponentBytes(m: Manifest): nat {
    if |m.components| != 3 then 0
    else m.components[0].bytes + m.components[1].bytes + m.components[2].bytes
  }

  /** Every byte in one component, and a total that wraps to the counter's last value. */
  predicate WrapsUnseen(m: Manifest) {
    && m.totalBytes == U64_MAX && |m.components| == 3
    && (|| m.components[0].bytes == m.components[1].bytes == 0
        || m.components[1].bytes == m.components[2].bytes == 0
        || m.components[0].bytes == m.components[2].bytes == 0)
  }

  lemma SumsAgree(a: nat, b: nat, c: nat, wrapped: nat)
    requires wrapped <= U64_MAX && (a + b + c <= U64_MAX ==> wrapped == a + b + c)
    ensures Saturate(a) + Saturate(b) + Saturate(c) == wrapped
            <==> (|| a + b + c <= U64_MAX
                  || (wrapped == U64_MAX && (a == b == 0 || b == c == 0 || a == c == 0)))
  {
  }

  lemma ManifestShape(env: Env, os: System, settings: Settings, data: Tree, m: Manifest)
    requires Lawful(os) && WellFormed(data) && ManifestFor(env, os, settings, data) == Ok(m)
    ensures m.files == Sorted(FilesOf(env, AllCopies(os, data, COMPONENTS))) && m.totalBytes == TotalBytes(m.files)
    ensures |m.components| == |COMPONENTS|
    ensures forall i :: 0 <= i < |COMPONENTS| ==> m.components[i] == ComponentEntry(env, os, data, COMPONENTS[i])
  {
  }

  lemma Wrapped(files: seq<BackupFile>)
    ensures TotalBytes(files) <= U64_MAX && (SumSizes(files) <= U64_MAX ==> TotalBytes(files) == SumSizes(files))
  {
  }

  lemma ManifestParts(env: Env, os: System, settings: Settings, data: Tree, m: Manifest)
    requires Lawful(os) && WellFormed(data) && ManifestFor(env, os, settings, data) == Ok(m)
    ensures m.files == Sorted(FilesOf(env, AllCopies(os, data, COMPONENTS)))
    ensures m.totalBytes <= U64_MAX && (SumSizes(m.files) <= U64_MAX ==> m.totalBytes == SumSizes(m.files))
    ensures |m.components| == |COMPONENTS|
    ensures forall i :: 0 <= i < |COMPONENTS| ==> m.components[i] == ComponentEntry(env, os, data, COMPONENTS[i])
  {
    ManifestShape(env, os, settings, data, m);
    Wrapped(m.files);
  }

  lemma ThreeSums(a: seq<BackupFile>, b: seq<BackupFile>, c: seq<BackupFile>)
    ensures |Sorted(a + b + c)| == |a| + |b| + |c|
    ensures SumSizes(Sorted(a + b + c)) == SumSizes(a) + SumSizes(b) + SumSizes(c)
  {
    SortedKeeps(a + b + c);
    SumConcat(a + b, c);
    SumConcat(a, b);
  }

  /** The counters of three components, and of the entries they came from. */
  lemma SummaryAddsUp(m: Manifest, a: seq<BackupFile>, b: seq<BackupFile>, c: seq<BackupFile>)
    requires m.files == Sorted(a + b + c) && |m.components| == 3
    requires m.totalBytes <= U64_MAX && (SumSizes(m.files) <= U64_MAX ==> m.totalBytes == SumSizes(m.files))
    requires m.components[0].fileCount == Saturate(|a|) && m.components[0].bytes == SaturatingSum(a)
    requires m.components[1].fileCount == Saturate(|b|) && m.components[1].bytes == SaturatingSum(b)
    requires m.components[2].fileCount == Saturate(|c|) && m.components[2].bytes == SaturatingSum(c)
    ensures |m.files| <= U64_MAX ==> Counts(m) == |m.files|
    ensures ComponentBytes(m) == m.totalBytes <==> SumSizes(m.files) <= U64_MAX || WrapsUnseen(m)
  {
    ThreeSums(a, b, c);
    SaturatingSumIsSaturated(a);
    SaturatingSumIsSaturated(b);
    SaturatingSumIsSaturated(c);
    SumsAgree(SumSizes(a), SumSizes(b), SumSizes(c), m.totalBytes);
  }

  /**
   * The manifest's counters are conserved.  The components' file counts sum to
   * the number of entries; their bytes sum to `total_bytes` as long as the true
   * total fits in 64 bits, and beyond that only when every byte is in one
   * component and the total wraps to exactly the largest value.
   */
  lemma CountersAddUp(env: Env, os: System, settings: Settings, data: Tree, m: Manifest)
    requires Lawful(os) && WellFormed(data) && ManifestFor(env, os, settings, data) == Ok(m)
    ensures |m.files| <= U64_MAX ==> Counts(m) == |m.files|
    ensures ComponentBytes(m) == m.totalBytes <==> SumSizes(m.files) <= U64_MAX || WrapsUnseen(m)
  {
    EntriesByComponent(env, os, data);
    ManifestParts(env, os, settings, data, m);
    assert COMPONENTS[0] == METADATA && COMPONENTS[1] == SYSTEM && COMPONENTS[2] == OBJECTS;
    SummaryAddsUp(m, Entries(env, os, data, METADATA), Entries(env, os, data, SYSTEM), Entries(env, os, data, OBJECTS));
  }

  // ---------------------------------------------------------- bytes of the deployment

  lemma {:induction false} AllCopiedTotal(env: Env, os: System, data: Tree, components: seq<string>)
    requires Lawful(os) && WellFormed(data)
    requires forall c :: c in components ==> !IsFile(data, [c])
    ensures forall p :: p in Kept(Walked(os, data, components)) ==> IsFile(data, p)
    ensures SumSizes(FilesOf(env, AllCopies(os, data, components))) == Total(data, Kept(Walked(os, data, components)))
    decreases |components|
  {
    KeptMembers(Walked(os, data, components));
    if components != [] {
      var c, rest := components[0], components[1..];
      assert c in components;
      AllCopiedTotal(env, os, data, rest);
      WalkFilesIsComplete(os, data, [c]);
      var here, there := WalkFiles(os, data, [c]).value, Walked(os, data, rest);
      CopiedTotal(env, data, here);
      KeptConcat(here, there);
      TotalConcat(data, Kept(here), Kept(there));
      var copies, others := ComponentCopies(os, data, c), AllCopies(os, data, rest);
      FilesOfConcat(env, copies, others);
      SumConcat(FilesOf(env, copies), FilesOf(env, others));
    }
  }

  lemma {:induction false} KeptConcat(a: seq<Path>, b: seq<Path>)
    ensures Kept(a + b) == Kept(a) + Kept(b)
    decreases |a|
  {
    if a == [] {
      assert a + b == b;
    } else {
      assert (a + b)[1..] == a[1..] + b;
      KeptConcat(a[1..], b);
    }
  }

  /** The files a backup copies, under their own names. */
  ghost function StoredFiles(data: Tree): map<Path, Bytes> {
    map p | p in data && Stored(data, p) :: data[p].data
  }

  /** The same contents under other names weigh the same. */
  lemma {:induction false} MovedWeight(from: map<Path, Bytes>, to: map<Path, Bytes>, place: map<Path, Path>)
    requires forall p :: p in from ==> p in place && place[p] in to && to[place[p]] == from[p]
    requires forall p, q :: p in from && q in from && place[p] == place[q] ==> p == q
    requires forall r :: r in to ==> exists p :: p in from && place[p] == r
    ensures Weight(from) == Weight(to)
    decreases |from|
  {
    if from == map[] {
      assert to == map[];
    } else {
      var p := AnyOf(from);
      var r := place[p];
      Fewer(from, p);
      WeightWithout(to, r);
      forall x | x in to - {r} ensures exists q :: q in from - {p} && place[q] == x {
        var q :| q in from && place[q] == x;
      }
      MovedWeight(from - {p}, to - {r}, place);
    }
  }

  lemma SlashedWeighsTheSame(data: Tree)
    requires Storable(data)
    ensures Weight(StoredFiles(data)) == Weight(Slashed(data))
  {
    var from, to := StoredFiles(data), Slashed(data);
    var place := map p | p in from :: Filing.Filed(p);
    forall p | p in from ensures p in place && place[p] in to && to[place[p]] == from[p] {
      StoredIsAcceptable(data, p);
    }
    forall r | r in to ensures exists p :: p in from && place[p] == r {
      var p := FiledFrom(data, r);
      assert p in from && place[p] == r;
    }
    MovedWeight(from, to, place);
  }

  /** The entries of a manifest hold between them exactly the bytes of the files the backup copies. */
  lemma ManifestHoldsTheWeight(env: Env, os: System, settings: Settings, data: Tree, m: Manifest)
    requires Lawful(os) && WellFormed(data) && Walkable(data)
    requires ManifestFor(env, os, settings, data) == Ok(m)
    ensures SumSizes(m.files) == Weight(StoredFiles(data))
    ensures Storable(data) ==> SumSizes(m.files) == Weight(Slashed(data))
  {
    var walked := Walked(os, data, COMPONENTS);
    WalkedEnumerates(os, data);
    KeptMembers(walked);
    assert forall p :: p in Kept(walked) <==> p in StoredFiles(data);
    AllCopiedTotal(env, os, data, COMPONENTS);
    TotalIsWeight(data, Kept(walked), StoredFiles(data));
    ManifestParts(env, os, settings, data, m);
    SortedKeeps(FilesOf(env, AllCopies(os, data, COMPONENTS)));
    if Storable(data) {
      SlashedWeighsTheSame(data);
    }
  }

  /** Some of the files weigh no more than all of them. */
  lemma {:induction false} LighterPart(part: map<Path, Bytes>, whole: map<Path, Bytes>)
    requires forall p :: p in part ==> p in whole && whole[p] == part[p]
    ensures Weight(part) <= Weight(whole)
    decreases |part|
  {
    if part != map[] {
      var p := AnyOf(part);
      Fewer(part, p);
      WeightWithout(whole, p);
      LighterPart(part - {p}, whole - {p});
    }
  }

  lemma RoomForStored(os: System, settings: Settings, data: Tree)
    requires Lawful(os) && WellFormed(data) && Walkable(data) && settings.available <= U64_MAX
    requires SpaceSuffices(os, settings, data) && Weight(ComponentFiles(data)) <= U64_MAX
    ensures Weight(StoredFiles(data)) <= settings.available <= U64_MAX
  {
    SpaceCheckIsExact(os, settings, data);
    LighterPart(StoredFiles(data), ComponentFiles(data));
  }

  /** A passed space check leaves room for everything the manifest will list. */
  lemma PassedCheckFits(env: Env, os: System, settings: Settings, data: Tree, m: Manifest)
    requires Lawful(os) && WellFormed(data) && Walkable(data) && settings.available <= U64_MAX
    requires ManifestFor(env, os, settings, data) == Ok(m) && SpaceSuffices(os, settings, data)
    requires Weight(ComponentFiles(data)) <= U64_MAX
    ensures ComponentBytes(m) == m.totalBytes == SumSizes(m.files) <= settings.available
  {
    RoomForStored(os, settings, data);
    ManifestHoldsTheWeight(env, os, settings, data, m);
    CountersAddUp(env, os, settings, data, m);
    ManifestParts(env, os, settings, data, m);
  }

  // ------------------------------------------------------- more than the counters hold

  lemma {:induction false} OneOfTheSum(files: seq<BackupFile>, f: BackupFile)
    requires f in files
    ensures f.size <= SumSizes(files)
  {
    if files[0] != f {
      OneOfTheSum(files[1..], f);
    }
  }

  lemma ComponentIsCounted(env: Env, os: System, data: Tree, p: Path)
    requires Lawful(os) && WellFormed(data) && Walkable(data) && Stored(data, p) && data[p].data != []
    ensures ComponentEntry(env, os, data, p[0]).bytes > 0
  {
    StoredIsCopied(os, data, p);
    FilesOfHas(env, ComponentCopies(os, data, p[0]), CopyOf(data, p));
    var files := Entries(env, os, data, p[0]);
    OneOfTheSum(files, FileOf(env, CopyOf(data, p)));
    SaturatingSumIsSaturated(files);
  }

  lemma TwoWeigh(files: map<Path, Bytes>, p: Path, q: Path)
    requires p in files && q in files && p != q
    ensures Size(files[p]) + Size(files[q]) <= Weight(files)
  {
    WeightWithout(files, p);
    WeightWithout(files - {p}, q);
  }

  /**
   * With more bytes than a counter holds, in more than one component, the two
   * totals of the manifest differ.
   */
  lemma TotalsDiffer(env: Env, os: System, settings: Settings, data: Tree, m: Manifest, p: Path, q: Path)
    requires Lawful(os) && WellFormed(data) && Walkable(data) && ManifestFor(env, os, settings, data) == Ok(m)
    requires Stored(data, p) && Stored(data, q) && p[0] != q[0] && data[p].data != [] && data[q].data != []
    requires Size(data[p].data) + Size(data[q].data) > U64_MAX
    ensures ComponentBytes(m) != m.totalBytes
  {
    ManifestHoldsTheWeight(env, os, settings, data, m);
    TwoWeigh(StoredFiles(data), p, q);
    ComponentHolds(env, os, settings, data, m, p);
    ComponentHolds(env, os, settings, data, m, q);
    CountersAddUp(env, os, settings, data, m);
  }

  /** The component of a file that is not empty has bytes in its summary. */
  lemma ComponentHolds(env: Env, os: System, settings: Settings, data: Tree, m: Manifest, p: Path)
    requires Lawful(os) && WellFormed(data) && Walkable(data) && ManifestFor(env, os, settings, data) == Ok(m)
    requires Stored(data, p) && data[p].data != []
    ensures |m.components| == 3
    ensures p[0] == METADATA ==> m.components[0].bytes > 0
    ensures p[0] == SYSTEM ==> m.components[1].bytes > 0
    ensures p[0] == OBJECTS ==> m.components[2].bytes > 0
    ensures p[0] == METADATA || p[0] == SYSTEM || p[0] == OBJECTS
  {
    ComponentIsCounted(env, os, data, p);
    ManifestParts(env, os, settings, data, m);
    assert COMPONENTS[0] == METADATA && COMPONENTS[1] == SYSTEM && COMPONENTS[2] == OBJECTS;
  }
}
