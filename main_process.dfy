/**
 * The main-process handlers of `electron/main.ts`: the older recovery scan (`scan-files`)
 * with its anchored id pattern and its window of the last 100 documents, the id-to-file
 * lookup of `delete-os-file` and `open-os-file`, `open-folder`, and `db-load`/`db-save`,
 * which read and write the database file directly, without the anti-wipe guard.
 */
module MainProcess {
  import opened Wrappers
  import opened Text
  import opened Types
  import opened FileSystem
  import opened ScanService
  import opened WordService
  import DatabaseService
  import OSSystem

  // ---------------------------------------------------------------------------------------
  // `^(?:O\.?S\.?|Nº?|PEDIDO)?\s*[.\-_]?\s*(\d{3,6})`, case-insensitive

  /** The texts the optional group can match, with the empty alternative. */
  const ScanForms: seq<string> := ["", "OS", "O.S", "OS.", "O.S.", "N", "Nº", "PEDIDO"]

  predicate IsMark(c: char) { c == '.' || c == '-' || c == '_' }

  /** `r` matches `\s*[.\-_]?\s*` entirely. */
  predicate BlankMarkBlank(r: string) {
    var a := SkipSpaces(r, 0);
    a == |r| || (IsMark(r[a]) && SkipSpaces(r, a + 1) == |r|)
  }

  /** `p` is the group text `g` followed by `\s*[.\-_]?\s*`. */
  predicate AcceptsWith(p: string, g: string) {
    StartsWithI(p, g) && BlankMarkBlank(p[|g|..])
  }

  /** `p` matches `(?:O\.?S\.?|Nº?|PEDIDO)?\s*[.\-_]?\s*` entirely. */
  predicate AnchoredPrefix(p: string) {
    exists g | g in ScanForms :: AcceptsWith(p, g)
  }

  /** The same test, trying the alternatives of `forms` in order. */
  predicate PrefixIn(p: string, forms: seq<string>) {
    forms != [] && (AcceptsWith(p, forms[0]) || PrefixIn(p, forms[1..]))
  }

  lemma {:induction false} PrefixInIff(p: string, forms: seq<string>)
    ensures PrefixIn(p, forms) <==> exists g | g in forms :: AcceptsWith(p, g)
  {
    if forms != [] {
      PrefixInIff(p, forms[1..]);
      assert forall g | g in forms :: g == forms[0] || g in forms[1..];
    }
  }

  /** The position of the first digit of `s`, or `|s|`. */
  function FirstDigit(s: string): (p: nat)
    ensures p <= |s|
    ensures forall j | 0 <= j < p :: !IsDigit(s[j])
    ensures p < |s| ==> IsDigit(s[p])
  {
    if s == [] || IsDigit(s[0]) then 0 else 1 + FirstDigit(s[1..])
  }

  /**
   * `parseInt(file.match(idRegex)[1])`: the pattern can only place its digits at the first
   * digit of the name, since no part of the prefix is a digit; the group then takes up to
   * six of them and needs at least three.
   */
  function AnchoredId(name: string): (r: Option<nat>)
    ensures r.Some? ==> r.value <= 999999
  {
    var p := FirstDigit(name);
    var e := DigitRunEnd(name, p, 6);
    // `ScanForms[..]` rather than the constant itself keeps the list from being unrolled eagerly
    if e - p >= 3 && PrefixIn(name[..p], ScanForms[..]) then
      var d := name[p..e];
      DigitsValueBound(d);
      Pow10Monotone(|d|, 6);
      Some(DigitsValue(d))
    else None
  }

  lemma BlankMarkBlankNoDigit(r: string, j: nat)
    requires BlankMarkBlank(r) && j < |r|
    ensures !IsDigit(r[j])
  {
    var a := SkipSpaces(r, 0);
    if j >= a && a < |r| && j > a {
      assert IsSpace(r[j]);
    }
  }

  lemma ScanFormNoDigit(p: string, g: string, j: nat)
    requires g in ScanForms && StartsWithI(p, g) && j < |g|
    ensures !IsDigit(p[j])
  {
    assert SameLetterI(p[j], g[j]);
    assert !IsDigit(g[j]);
  }

  /** No text the prefix matches holds a digit. */
  lemma AnchoredPrefixNoDigit(p: string)
    requires AnchoredPrefix(p)
    ensures forall j | 0 <= j < |p| :: !IsDigit(p[j])
  {
    var g :| g in ScanForms && AcceptsWith(p, g);
    var n := |g|;
    forall j | 0 <= j < |p| ensures !IsDigit(p[j]) {
      if j < n {
        ScanFormNoDigit(p, g, j);
      } else {
        BlankMarkBlankNoDigit(p[n..], j - n);
      }
    }
  }

  /** Three digits at `q` reach the end of a run of at most six digits at least three places on. */
  lemma RunAtLeastThree(name: string, q: nat)
    requires DigitRunAt(name, q)
    ensures DigitRunEnd(name, q, 6) >= q + 3
  {
    var e := DigitRunEnd(name, q, 6);
    assert forall k | q <= k < q + 3 :: IsDigit(name[k]);
  }

  /**
   * The pattern matches exactly when some prefix it accepts is followed by three digits,
   * and the id is then the value of the digits there, up to six of them.
   */
  lemma AnchoredIdIff(name: string)
    ensures AnchoredId(name).Some? <==>
      exists q | 0 <= q <= |name| :: AnchoredPrefix(name[..q]) && DigitRunAt(name, q)
  {
    var p := FirstDigit(name);
    PrefixInIff(name[..p], ScanForms[..]);
    if AnchoredId(name).Some? {
      RunAtLeastThree(name, p);
      assert DigitRunEnd(name, p, 6) >= p + 3;
      assert AnchoredPrefix(name[..p]) && DigitRunAt(name, p);
    }
    if q :| 0 <= q <= |name| && AnchoredPrefix(name[..q]) && DigitRunAt(name, q) {
      AnchoredIdAt(name, q);
    }
  }

  lemma SliceIndex(s: string, q: nat, j: nat)
    ensures j < q <= |s| ==> s[..q][j] == s[j]
  {
  }

  /** Wherever an accepted prefix is followed by three digits, the id is read from there. */
  lemma AnchoredIdAt(name: string, q: nat)
    requires q <= |name| && AnchoredPrefix(name[..q]) && DigitRunAt(name, q)
    ensures AnchoredId(name) == Some(DigitsValue(name[q..DigitRunEnd(name, q, 6)]))
  {
    var p := FirstDigit(name);
    AnchoredPrefixNoDigit(name[..q]);
    SliceIndex(name, q, p);
    assert p == q;
    PrefixInIff(name[..q], ScanForms[..]);
    RunAtLeastThree(name, q);
  }

  // ---------------------------------------------------------------------------------------
  // `scan-files`

  const ScanWindow: nat := 100
  const RecoveredMark: string := "Recuperado"
  const PhysicalFileObs: string := "Arquivo físico existente"

  /** `files.filter(f => f.endsWith('.docx'))`, Office lock files included. */
  function Docx(files: seq<DocFile>): (r: seq<DocFile>)
    ensures forall f :: f in r <==> f in files && EndsWith(f.name, ".docx")
  {
    if files == [] then []
    else
      var last := files[|files| - 1];
      assert files == files[..|files| - 1] + [last];
      Docx(files[..|files| - 1]) + (if EndsWith(last.name, ".docx") then [last] else [])
  }

  lemma {:induction false} DocxConcat(a: seq<DocFile>, b: seq<DocFile>)
    ensures Docx(a + b) == Docx(a) + Docx(b)
  {
    if b != [] {
      var front, last := b[..|b| - 1], b[|b| - 1];
      assert (a + b)[..|a + b| - 1] == a + front;
      assert (a + b)[|a + b| - 1] == last;
      DocxConcat(a, front);
    } else {
      assert a + b == a;
    }
  }

  /** `docxFiles.slice(-100)`: the last hundred documents in listing order. */
  function Recent(files: seq<DocFile>): (r: seq<DocFile>)
    ensures |r| <= ScanWindow
    ensures var d := Docx(files); |r| == (if |d| < ScanWindow then |d| else ScanWindow) && r == d[|d| - |r|..]
  {
    var d := Docx(files);
    if |d| <= ScanWindow then d else d[|d| - ScanWindow..]
  }

  /** The record every matched file produces: only the number and the date vary. */
  function LegacyRecord(id: nat, date: string): WorkOrder {
    WorkOrder(id, date, RecoveredMark, "", RecoveredMark, "", PlaceholderPrice, PhysicalFileObs, RecoveredMark)
  }

  /** The records pushed so far, or `None` once a matched file could not be `stat`ed. */
  function LegacyRecoveredOf(files: seq<DocFile>): Option<seq<WorkOrder>> {
    if files == [] then Some([])
    else
      var f := files[|files| - 1];
      match LegacyRecoveredOf(files[..|files| - 1])
      case None => None
      case Some(rs) =>
        match AnchoredId(f.name)
        case None => Some(rs)
        case Some(id) => if f.birth.None? then None else Some(rs + [LegacyRecord(id, f.birth.value)])
  }

  /** `maxId`: 3825 raised to every number matched. */
  function LegacyMaxOf(files: seq<DocFile>): int {
    if files == [] then InitialCounter
    else
      var m := LegacyMaxOf(files[..|files| - 1]);
      match AnchoredId(files[|files| - 1].name)
      case Some(id) => if id > m then id else m
      case None => m
  }

  /** `scan-files` as a value. */
  function LegacyScanOf(listing: Listing): ScanReply {
    match listing
    case Missing => ScanReply(false, None)
    case Unreadable => ScanReply(false, None)
    case Entries(files) =>
      var recent := Recent(files);
      match LegacyRecoveredOf(recent)
      case None => ScanReply(false, None)
      case Some(rs) => ScanReply(true, Some(Store(LegacyMaxOf(recent), rs)))
  }

  lemma {:induction false} LegacyMaxBounds(files: seq<DocFile>)
    ensures LegacyMaxOf(files) >= InitialCounter
    ensures forall f | f in files && AnchoredId(f.name).Some? :: AnchoredId(f.name).value <= LegacyMaxOf(files)
    ensures LegacyMaxOf(files) == InitialCounter
            || exists f | f in files :: AnchoredId(f.name) == Some(LegacyMaxOf(files))
  {
    if files != [] {
      var front, f := files[..|files| - 1], files[|files| - 1];
      assert files == front + [f];
      LegacyMaxBounds(front);
    }
  }

  /** Every record is the fixed placeholder record of a matched, dated file; every matched file gave one. */
  lemma LegacyProvenance(files: seq<DocFile>)
    requires LegacyRecoveredOf(files).Some?
    ensures forall y | y in LegacyRecoveredOf(files).value :: exists f | f in files ::
      AnchoredId(f.name) == Some(y.os) && f.birth == Some(y.data) && y == LegacyRecord(y.os, y.data)
    ensures forall f | f in files && AnchoredId(f.name).Some? ::
      AnchoredId(f.name).value in Ids(LegacyRecoveredOf(files).value)
  {
    LegacyFromFiles(files);
    LegacyCoversFiles(files);
  }

  lemma {:induction false} LegacyFromFiles(files: seq<DocFile>)
    requires LegacyRecoveredOf(files).Some?
    ensures forall y | y in LegacyRecoveredOf(files).value :: exists f | f in files ::
      AnchoredId(f.name) == Some(y.os) && f.birth == Some(y.data) && y == LegacyRecord(y.os, y.data)
  {
    if files != [] {
      var front, f := files[..|files| - 1], files[|files| - 1];
      assert files == front + [f];
      LegacyFromFiles(front);
      var rs := LegacyRecoveredOf(front).value;
      var rs' := LegacyRecoveredOf(files).value;
      if AnchoredId(f.name).Some? {
        var y' := LegacyRecord(AnchoredId(f.name).value, f.birth.value);
        assert rs' == rs + [y'];
        forall y | y in rs'
          ensures exists g | g in files ::
            AnchoredId(g.name) == Some(y.os) && g.birth == Some(y.data) && y == LegacyRecord(y.os, y.data)
        {
          if y == y' {
            assert f in files;
          } else {
            assert y in rs;
          }
        }
      } else {
        assert rs' == rs;
      }
    }
  }

  lemma {:induction false} LegacyCoversFiles(files: seq<DocFile>)
    requires LegacyRecoveredOf(files).Some?
    ensures forall f | f in files && AnchoredId(f.name).Some? ::
      AnchoredId(f.name).value in Ids(LegacyRecoveredOf(files).value)
  {
    if files != [] {
      var front, f := files[..|files| - 1], files[|files| - 1];
      assert files == front + [f];
      LegacyCoversFiles(front);
      var rs := LegacyRecoveredOf(front).value;
      if AnchoredId(f.name).Some? {
        IdsSnoc(rs, LegacyRecord(AnchoredId(f.name).value, f.birth.value));
      }
    }
  }

  lemma {:induction false} LegacyAbortStays(a: seq<DocFile>, b: seq<DocFile>)
    requires LegacyRecoveredOf(a).None?
    ensures LegacyRecoveredOf(a + b).None?
    decreases |b|
  {
    if b != [] {
      var front := b[..|b| - 1];
      assert (a + b)[..|a + b| - 1] == a + front;
      LegacyAbortStays(a, front);
    } else {
      assert a + b == a;
    }
  }

  /** The older scan fails exactly when a matched document in the window cannot be `stat`ed. */
  lemma {:induction false} LegacyAbortIff(files: seq<DocFile>)
    ensures LegacyRecoveredOf(files).None? <==> exists f | f in files :: AnchoredId(f.name).Some? && f.birth.None?
  {
    if files != [] {
      var front, f := files[..|files| - 1], files[|files| - 1];
      assert files == front + [f];
      LegacyAbortIff(front);
    }
  }

  /**
   * A successful older scan: the counter is at least 3825 and every number matched in the
   * window, records carry ids of at most six digits, and every record has the fixed fields.
   * The ids need not be unique: see `LegacyScanDuplicates`.
   */
  lemma LegacyScanResult(files: seq<DocFile>)
    requires LegacyScanOf(Entries(files)).success
    ensures var st := LegacyScanOf(Entries(files)).data.value;
      && st.ultimoNumero >= InitialCounter
      && IdsAtMost(st.historico, st.ultimoNumero)
      && (forall y | y in st.historico :: 0 <= y.os <= 999999 && y == LegacyRecord(y.os, y.data))
      && (forall f | f in Recent(files) && AnchoredId(f.name).Some? :: AnchoredId(f.name).value in Ids(st.historico))
  {
    var recent := Recent(files);
    LegacyMaxBounds(recent);
    LegacyProvenance(recent);
    var st := LegacyScanOf(Entries(files)).data.value;
    forall i | 0 <= i < |st.historico| ensures st.historico[i].os <= st.ultimoNumero {
      var y := st.historico[i];
      assert y in st.historico;
      var f :| f in recent && AnchoredId(f.name) == Some(y.os) && f.birth == Some(y.data) && y == LegacyRecord(y.os, y.data);
    }
  }

  /** Files listed before the last hundred documents never affect the older scan. */
  lemma ScanIgnoresOlder(older: seq<DocFile>, files: seq<DocFile>)
    requires |Docx(files)| >= ScanWindow
    ensures Recent(older + files) == Recent(files)
    ensures LegacyScanOf(Entries(older + files)) == LegacyScanOf(Entries(files))
  {
    RecentIgnoresOlder(older, files);
  }

  lemma RecentIgnoresOlder(older: seq<DocFile>, files: seq<DocFile>)
    requires |Docx(files)| >= ScanWindow
    ensures Recent(older + files) == Recent(files)
  {
    DocxConcat(older, files);
    var a, b := Docx(older), Docx(files);
    SuffixOfConcat(a, b, ScanWindow);
  }

  lemma SuffixOfConcat(a: seq<DocFile>, b: seq<DocFile>, n: nat)
    requires n <= |b|
    ensures (a + b)[|a + b| - n..] == b[|b| - n..]
  {
    assert (a + b)[|a|..] == b;
  }

  /** Two documents of the same order give two records with one id. */
  lemma LegacyScanDuplicates(f1: DocFile, f2: DocFile, id: nat)
    requires EndsWith(f1.name, ".docx") && EndsWith(f2.name, ".docx")
    requires AnchoredId(f1.name) == AnchoredId(f2.name) == Some(id)
    requires f1.birth.Some? && f2.birth.Some?
    ensures LegacyScanOf(Entries([f1, f2])).success
    ensures LegacyScanOf(Entries([f1, f2])).data.value.historico ==
      [LegacyRecord(id, f1.birth.value), LegacyRecord(id, f2.birth.value)]
    ensures !UniqueIds(LegacyScanOf(Entries([f1, f2])).data.value.historico)
  {
    var r1, r2 := LegacyRecord(id, f1.birth.value), LegacyRecord(id, f2.birth.value);
    TwoRecords(f1, f2, r1, r2);
    TwoDocuments(f1, f2);
    assert [r1, r2][0].os == [r1, r2][1].os;
  }

  /** For instance `4000 a.docx` and `4000 b.docx`. */
  lemma LegacyScanDuplicatesExample(f1: DocFile, f2: DocFile)
    requires f1 == DocFile("4000 a.docx", Some("01/02/2024"), None)
    requires f2 == DocFile("4000 b.docx", Some("01/02/2024"), None)
    ensures LegacyScanOf(Entries([f1, f2])).success
    ensures !UniqueIds(LegacyScanOf(Entries([f1, f2])).data.value.historico)
  {
    ExampleName(f1.name);
    ExampleName(f2.name);
    LegacyScanDuplicates(f1, f2, 4000);
  }

  /**
   * Fed to the renderer's reconciliation, that scan puts both records for order 4000 into
   * an empty store: the store then holds one id twice.
   */
  lemma LegacySyncDuplicates(f1: DocFile, f2: DocFile)
    requires f1 == DocFile("4000 a.docx", Some("01/02/2024"), None)
    requires f2 == DocFile("4000 b.docx", Some("01/02/2024"), None)
    ensures var scan := LegacyScanOf(Entries([f1, f2]));
      && scan.success && scan.data.Some?
      && OSSystem.Synced(DefaultStore, scan.data.value).Some?
      && !UniqueIds(OSSystem.Synced(DefaultStore, scan.data.value).value.historico)
  {
    LegacyScanDuplicatesExample(f1, f2);
    var data := LegacyScanOf(Entries([f1, f2])).data.value;
    OSSystem.SyncRepeatedId(DefaultStore, data);
  }

  lemma ExampleName(name: string)
    requires name == "4000 a.docx" || name == "4000 b.docx"
    ensures EndsWith(name, ".docx") && AnchoredId(name) == Some(4000)
  {
    assert name[..5] == "4000 ";
    assert name[|name| - 5..] == ".docx";
    AnchoredFour(name);
  }

  /** Two matched documents in a row give their two records. */
  lemma TwoRecords(f1: DocFile, f2: DocFile, r1: WorkOrder, r2: WorkOrder)
    requires AnchoredId(f1.name) == Some(r1.os) && AnchoredId(f2.name) == Some(r2.os)
    requires f1.birth == Some(r1.data) && f2.birth == Some(r2.data)
    requires r1 == LegacyRecord(r1.os, r1.data) && r2 == LegacyRecord(r2.os, r2.data)
    ensures LegacyRecoveredOf([f1, f2]) == Some([r1, r2])
  {
    assert [] + [f1] == [f1];
    assert [f1] + [f2] == [f1, f2];
    LegacyStepPush([], f1, [], r1.os, r1.data);
    assert [] + [r1] == [r1];
    LegacyStepPush([f1], f2, [r1], r2.os, r2.data);
    assert [r1] + [r2] == [r1, r2];
  }

  lemma TwoDocuments(f1: DocFile, f2: DocFile)
    requires EndsWith(f1.name, ".docx") && EndsWith(f2.name, ".docx")
    ensures Recent([f1, f2]) == [f1, f2]
  {
    assert [f1, f2][..1] == [f1];
    assert Docx([f1]) == [f1];
  }

  /** A name starting `4000 ` has the id 4000. */
  lemma AnchoredFour(name: string)
    requires |name| > 5 && name[..5] == "4000 "
    ensures AnchoredId(name) == Some(4000)
  {
    assert name[0] == '4';
    assert DigitRunAt(name, 0);
    assert AnchoredPrefix(name[..0]) by {
      assert ScanForms[0] == "" && "" in ScanForms;
      assert AcceptsWith(name[..0], "");
    }
    AnchoredIdAt(name, 0);
    assert name[4] == ' ';
    var e := DigitRunEnd(name, 0, 6);
    assert e == 4 by {
      assert forall k | 0 <= k < 4 :: IsDigit(name[k]);
    }
    assert name[0..4] == "4000";
    assert DigitsValue("4") == 4 by { assert "4"[..0] == ""; }
    assert DigitsValue("40") == 40 by { assert "40"[..1] == "4"; }
    assert DigitsValue("400") == 400 by { assert "400"[..2] == "40"; }
    assert DigitsValue("4000") == 4000 by { assert "4000"[..3] == "400"; }
  }

  /** One more file processed by the scan loop. */
  lemma LegacySnoc(done: seq<DocFile>, f: DocFile)
    ensures LegacyRecoveredOf(done + [f]) ==
      match LegacyRecoveredOf(done)
      case None => None
      case Some(rs) =>
        match AnchoredId(f.name)
        case None => Some(rs)
        case Some(id) => if f.birth.None? then None else Some(rs + [LegacyRecord(id, f.birth.value)])
    ensures LegacyMaxOf(done + [f]) ==
      match AnchoredId(f.name)
      case Some(id) => if id > LegacyMaxOf(done) then id else LegacyMaxOf(done)
      case None => LegacyMaxOf(done)
  {
    assert (done + [f])[..|done|] == done;
  }

  /** The loop of `scan-files` over the window: the records pushed and `maxId`. */
  method CollectLegacy(recentFiles: seq<DocFile>) returns (result: Option<seq<WorkOrder>>, maxId: int)
    ensures result == LegacyRecoveredOf(recentFiles)
    ensures result.Some? ==> maxId == LegacyMaxOf(recentFiles)
  {
    var recovered: seq<WorkOrder> := [];
    maxId := InitialCounter;
    for n := 0 to |recentFiles|
      invariant LegacyRecoveredOf(recentFiles[..n]) == Some(recovered)
      invariant maxId == LegacyMaxOf(recentFiles[..n])
    {
      var file := recentFiles[n];
      LegacySnocAt(recentFiles, n);
      var id := AnchoredId(file.name);
      if id.Some? {
        if id.value > maxId {
          maxId := id.value;
        }
        if file.birth.None? {
          LegacyAbortAt(recentFiles, n);
          return None, maxId;
        }
        recovered := recovered + [LegacyRecord(id.value, file.birth.value)];
      }
    }
    assert recentFiles[..|recentFiles|] == recentFiles;
    result := Some(recovered);
  }

  lemma LegacySnocAt(files: seq<DocFile>, n: nat)
    requires n < |files|
    ensures LegacyRecoveredOf(files[..n + 1]) ==
      match LegacyRecoveredOf(files[..n])
      case None => None
      case Some(rs) =>
        match AnchoredId(files[n].name)
        case None => Some(rs)
        case Some(id) => if files[n].birth.None? then None else Some(rs + [LegacyRecord(id, files[n].birth.value)])
    ensures LegacyMaxOf(files[..n + 1]) ==
      match AnchoredId(files[n].name)
      case Some(id) => if id > LegacyMaxOf(files[..n]) then id else LegacyMaxOf(files[..n])
      case None => LegacyMaxOf(files[..n])
  {
    assert files[..n + 1] == files[..n] + [files[n]];
    LegacySnoc(files[..n], files[n]);
  }

  lemma LegacyAbortAt(files: seq<DocFile>, n: nat)
    requires n < |files| && LegacyRecoveredOf(files[..n + 1]).None?
    ensures LegacyRecoveredOf(files).None?
  {
    assert files == files[..n + 1] + files[n + 1..];
    LegacyAbortStays(files[..n + 1], files[n + 1..]);
  }

  lemma LegacyStepPush(done: seq<DocFile>, f: DocFile, rs: seq<WorkOrder>, id: nat, birth: string)
    requires LegacyRecoveredOf(done) == Some(rs) && AnchoredId(f.name) == Some(id) && f.birth == Some(birth)
    ensures LegacyRecoveredOf(done + [f]) == Some(rs + [LegacyRecord(id, birth)])
  {
    LegacySnoc(done, f);
  }

  /** `scan-files`. A missing folder reports failure, a listing or `stat` error too. */
  method LegacyScan(listing: Listing) returns (r: ScanReply)
    ensures r == LegacyScanOf(listing)
  {
    if !listing.Entries? {
      return ScanReply(false, None);
    }
    var recentFiles := Recent(listing.files);
    var recovered, maxId := CollectLegacy(recentFiles);
    if recovered.None? {
      return ScanReply(false, None);
    }
    return ScanReply(true, Some(Store(maxId, recovered.value)));
  }

  // ---------------------------------------------------------------------------------------
  // Id-to-file lookup: `files.find(f => f.endsWith('.docx') && idRegex.test(f))`

  predicate IsOsFile(name: string, osId: int) {
    EndsWith(name, ".docx") && LegacyMatch(name, IntToString(osId))
  }

  /** The first document of the listing that the pattern of order `osId` matches. */
  function FindOsFile(names: seq<string>, osId: int): (r: Option<string>)
    ensures r.Some? ==> IsOsFile(r.value, osId)
    ensures r.Some? ==> exists i | 0 <= i < |names| :: names[i] == r.value && forall j | 0 <= j < i :: !IsOsFile(names[j], osId)
    ensures r.None? <==> forall n | n in names :: !IsOsFile(n, osId)
  {
    if names == [] then None
    else if IsOsFile(names[0], osId) then Some(names[0])
    else
      var r := FindOsFile(names[1..], osId);
      assert forall j | 1 <= j < |names| :: names[j] == names[1..][j - 1];
      r
  }

  /** The file found for order `n` is never a file of another order `m`: 350 does not find `3501 ...`. */
  lemma FindOsFileExact(names: seq<string>, n: nat, m: nat)
    requires n != m && FindOsFile(names, n).Some?
    ensures !IsOsFile(FindOsFile(names, n).value, m)
  {
    var f := FindOsFile(names, n).value;
    if LegacyMatch(f, IntToString(m)) {
      LegacyMatchUnique(f, NatToString(n), NatToString(m));
      NatToStringInjective(n, m);
    }
  }

  datatype FileReply = Done | FileError

  /**
   * `delete-os-file`: a missing folder or no matching document is a success; only the first
   * matching document is removed; a failing `unlink` is reported.
   */
  method DeleteOsFile(folder: Folder, osId: int, unlinkOk: bool) returns (r: FileReply)
    modifies folder
    ensures folder.present == old(folder.present)
    ensures !old(folder.present) ==> r == Done && folder.names == old(folder.names)
    ensures old(folder.present) && FindOsFile(old(folder.names), osId).None? ==>
      r == Done && folder.names == old(folder.names)
    ensures old(folder.present) && FindOsFile(old(folder.names), osId).Some? ==>
      var file := FindOsFile(old(folder.names), osId).value;
      && (r == Done <==> unlinkOk)
      && folder.names == if unlinkOk then Without(old(folder.names), {file}) else old(folder.names)
  {
    if !folder.present {
      return Done;
    }
    var files := folder.names;
    var file := FindOsFile(files, osId);
    if file.Some? {
      var removed := folder.Unlink(file.value, unlinkOk);
      if !removed {
        return FileError;
      }
    }
    return Done;
  }

  datatype OpenReply = Opened(file: string) | NotFound(message: string) | Rejected

  const NotFoundMessage: string := "Arquivo não encontrado."

  /** `open-os-file`: listing a missing folder rejects the call, which has no `try`. */
  function OpenOsFile(folder: Folder, osId: int): (r: OpenReply)
    reads folder
    ensures r.Rejected? <==> !folder.present
    ensures r.Opened? ==> r.file in folder.names && IsOsFile(r.file, osId)
    ensures r.Opened? <==> folder.present && FindOsFile(folder.names, osId).Some?
    ensures r.Opened? ==> exists i | 0 <= i < |folder.names| ::
      folder.names[i] == r.file && forall j | 0 <= j < i :: !IsOsFile(folder.names[j], osId)
    ensures r == NotFound(NotFoundMessage) <==> folder.present && forall n | n in folder.names :: !IsOsFile(n, osId)
  {
    if !folder.present then Rejected
    else
      match FindOsFile(folder.names, osId)
      case Some(file) => Opened(file)
      case None => NotFound(NotFoundMessage)
  }

  /**
   * `open-folder`: the backup folder when asked for `"backup"`, the output folder otherwise;
   * it is created, empty, when missing, and then shown.
   */
  method OpenFolder(kind: string, output: Folder, backup: Folder) returns (shown: Folder)
    modifies if kind == "backup" then backup else output
    ensures shown == if kind == "backup" then backup else output
    ensures shown.present
    ensures old(shown.present) ==> shown.names == old(shown.names)
    ensures !old(shown.present) ==> shown.names == []
  {
    shown := if kind == "backup" then backup else output;
    shown.Ensure();
  }

  // ---------------------------------------------------------------------------------------
  // `db-load` and `db-save`

  /** `db-load` reads the file exactly as `DatabaseService.load` does. */
  function DbLoad(db: DatabaseService.DatabaseFile): (r: DatabaseService.Loaded)
    reads db
    ensures r == db.Load()
    ensures db.target.None? ==> r == DatabaseService.Records(DefaultStore)
  {
    DatabaseService.LoadOf(db.target)
  }

  /** What `JSON.stringify(data)` produces, abstracted. */
  function Serialized(data: DatabaseService.Incoming): DatabaseService.Content {
    match data
    case Data(st) => DatabaseService.StoreJson(st)
    case _ => DatabaseService.Shapeless
  }

  /**
   * `db-save`: any payload is written to the temporary file and renamed over the database,
   * with no check of its shape or of an emptied list.
   */
  method DbSave(db: DatabaseService.DatabaseFile, data: DatabaseService.Incoming, writeOk: bool, renameOk: bool)
    returns (r: DatabaseService.SaveReply)
    modifies db
    ensures r == DatabaseService.Saved <==> writeOk && renameOk
    ensures r != DatabaseService.Saved ==> r == DatabaseService.Threw && db.target == old(db.target)
    ensures r == DatabaseService.Saved ==> db.target == Some(Serialized(data)) && db.temp == None
    ensures writeOk && !renameOk ==> db.temp == Some(Serialized(data))
    ensures !writeOk ==> db.temp == Some(DatabaseService.Corrupt)
  {
    var jsonContent := Serialized(data);
    if !writeOk {
      db.temp := Some(DatabaseService.Corrupt);
      return DatabaseService.Threw;
    }
    db.temp := Some(jsonContent);
    if !renameOk {
      return DatabaseService.Threw;
    }
    db.target := db.temp;
    db.temp := None;
    return DatabaseService.Saved;
  }
}
