/**
 * The recovery scan (`ScanService.scanFiles`): rebuilds work orders from the documents in
 * the output folder. Each `.docx` whose name holds a 3 to 6 digit number becomes a record;
 * client, equipment, price and phone are mined from the document text, with placeholder
 * defaults; records with the same number are collapsed, preferring one whose client was
 * identified; the result is sorted by number, with the largest number seen as the counter.
 *
 * The folder is an input: the listing, and per file its creation date (`None` when `stat`
 * fails) and the text of `word/document.xml` with every tag replaced by a blank (`None` when
 * the archive cannot be read or has no such part). The phone pattern is a recogniser passed
 * in as a function: the first text it matches, if any.
 */
module ScanService {
  import opened Wrappers
  import opened Text
  import opened Types

  datatype DocFile = DocFile(name: string, birth: Option<string>, body: Option<string>)

  datatype Listing = Missing | Unreadable | Entries(files: seq<DocFile>)

  const PlaceholderClient: string := "Cliente não identificado"
  const PlaceholderEquipment: string := "Equipamento antigo"
  const PlaceholderPrice: string := "R$ 0,00"
  const LegacyObs: string := "Recuperado de arquivo legado"
  const LegacyDefect: string := "Verificar arquivo físico"
  const Delivered: string := "Aprovado - Entregue"
  const UnderReview: string := "Em Análise"

  const ClientLabels: seq<string> := ["Cliente", "Nome"]
  const EquipmentLabels: seq<string> := ["Equipamento", "Aparelho", "Modelo"]
  const ClientWidth: nat := 40
  const EquipmentWidth: nat := 30

  // ---------------------------------------------------------------------------------------
  // Which files count, and their number

  /** A Word document that is not one of Word's `~$` lock files. */
  predicate Eligible(name: string) {
    EndsWith(name, ".docx") && !StartsWith(name, "~$")
  }

  /** `files.filter(...)`: the eligible names, in listing order. */
  function Candidates(files: seq<DocFile>): (r: seq<DocFile>)
    ensures forall f :: f in r <==> f in files && Eligible(f.name)
  {
    if files == [] then []
    else
      var last := files[|files| - 1];
      assert files == files[..|files| - 1] + [last];
      Candidates(files[..|files| - 1]) + (if Eligible(last.name) then [last] else [])
  }

  /** The filter distributes over concatenation, so the scan sees the files in listing order. */
  lemma {:induction false} CandidatesConcat(a: seq<DocFile>, b: seq<DocFile>)
    ensures Candidates(a + b) == Candidates(a) + Candidates(b)
  {
    if b == [] {
      assert a + b == a;
    } else {
      var front, last := b[..|b| - 1], b[|b| - 1];
      assert (a + b)[..|a + b| - 1] == a + front;
      assert (a + b)[|a + b| - 1] == last;
      CandidatesConcat(a, front);
    }
  }

  /** A single listed file is scanned exactly when it is eligible. */
  lemma CandidatesSingle(f: DocFile)
    ensures Candidates([f]) == if Eligible(f.name) then [f] else []
  {
    assert [f][..0] == [];
  }

  predicate DigitRunAt(s: string, i: nat) {
    i + 3 <= |s| && IsDigit(s[i]) && IsDigit(s[i + 1]) && IsDigit(s[i + 2])
  }

  /** The leftmost position at or after `from` where three digits follow. */
  function FirstDigitRun(s: string, from: nat): (r: Option<nat>)
    requires from <= |s|
    ensures r.Some? ==> from <= r.value && DigitRunAt(s, r.value)
    ensures r.Some? ==> forall j | from <= j < r.value :: !DigitRunAt(s, j)
    ensures r.None? ==> forall j | from <= j <= |s| :: !DigitRunAt(s, j)
    decreases |s| - from
  {
    if DigitRunAt(s, from) then Some(from)
    else if from == |s| then None
    else FirstDigitRun(s, from + 1)
  }

  /** The end of the run of at most `limit` digits that starts at `i`. */
  function DigitRunEnd(s: string, i: nat, limit: nat): (e: nat)
    requires i <= |s|
    ensures i <= e <= |s| && e - i <= limit
    ensures forall k | i <= k < e :: IsDigit(s[k])
    ensures e - i == limit || e == |s| || !IsDigit(s[e])
    decreases limit
  {
    if limit > 0 && i < |s| && IsDigit(s[i]) then DigitRunEnd(s, i + 1, limit - 1) else i
  }

  /**
   * `d` is what `\d{3,6}` matches when tried at `i`, `i` being the first position where it
   * can match: no run of three digits starts earlier, and the run is taken as far as six
   * digits or the first non-digit.
   */
  predicate MatchedRunAt(name: string, i: nat, d: string) {
    && i + |d| <= |name| && d == name[i..i + |d|] && 3 <= |d| <= 6
    && (forall j | 0 <= j < i :: !DigitRunAt(name, j))
    && (forall k | i <= k < i + |d| :: IsDigit(name[k]))
    && (|d| == 6 || i + |d| == |name| || !IsDigit(name[i + |d|]))
  }

  /** `name.match(/(\d{3,6})/)`: leftmost run of at least three digits, greedily up to six. */
  function IdDigits(name: string): (r: Option<string>)
    ensures r.Some? <==> exists j | 0 <= j <= |name| :: DigitRunAt(name, j)
    ensures r.Some? ==> 3 <= |r.value| <= 6 && AllDigits(r.value)
    ensures r.Some? ==> exists i: nat :: MatchedRunAt(name, i, r.value)
  {
    match FirstDigitRun(name, 0)
    case None => None
    case Some(i) =>
      var e := DigitRunEnd(name, i, 6);
      assert e >= i + 3;
      assert MatchedRunAt(name, i, name[i..e]);
      Some(name[i..e])
  }

  /** At most one run answers that description, so it fixes the match. */
  lemma MatchedRunUnique(name: string, i: nat, d: string, i': nat, d': string)
    requires MatchedRunAt(name, i, d) && MatchedRunAt(name, i', d')
    ensures i == i' && d == d'
  {
    if i < i' {
      MatchedRunStarts(name, i, d);
      assert false;
    } else if i' < i {
      MatchedRunStarts(name, i', d');
      assert false;
    }
  }

  lemma MatchedRunStarts(name: string, i: nat, d: string)
    requires MatchedRunAt(name, i, d)
    ensures DigitRunAt(name, i)
  {
    assert IsDigit(name[i]) && IsDigit(name[i + 1]) && IsDigit(name[i + 2]);
  }

  /** The number of a file: its digits read in base ten, kept only when positive. */
  function FileId(name: string): (r: Option<nat>)
    ensures r.Some? ==> 1 <= r.value <= 999999
    ensures r.Some? <==> IdDigits(name).Some? && DigitsValue(IdDigits(name).value) > 0
    ensures r.Some? ==> r.value == DigitsValue(IdDigits(name).value)
  {
    match IdDigits(name)
    case None => None
    case Some(d) =>
      DigitsValueBound(d);
      assert Pow10(|d|) <= Pow10(6) by { Pow10Monotone(|d|, 6); }
      if DigitsValue(d) > 0 then Some(DigitsValue(d)) else None
  }

  lemma {:induction false} Pow10Monotone(a: nat, b: nat)
    requires a <= b
    ensures Pow10(a) <= Pow10(b)
    decreases b
  {
    if a < b {
      Pow10Monotone(a, b - 1);
    }
  }

  // ---------------------------------------------------------------------------------------
  // Labelled fields: `(?:Label|...)\s*[:;-]\s*([^.,;]+)`, case-insensitive

  predicate IsSeparator(c: char) { c == ':' || c == ';' || c == '-' }

  predicate IsStop(c: char) { c == '.' || c == ',' || c == ';' }

  /** The end of the run of characters other than `.`, `,` and `;` that starts at `i`. */
  function StopAt(s: string, i: nat): (e: nat)
    requires i <= |s|
    ensures i <= e <= |s|
    ensures forall k | i <= k < e :: !IsStop(s[k])
    ensures e == |s| || IsStop(s[e])
    decreases |s| - i
  {
    if i < |s| && !IsStop(s[i]) then StopAt(s, i + 1) else i
  }

  /**
   * The value captured when the pattern is tried with `label` at `i`. Both `\s*` are greedy;
   * when the value would start at a stop character or the end of the text, the engine gives
   * back one blank of the second `\s*`, which is then the whole value.
   */
  function LabelCaptureAt(s: string, i: nat, tag: string): (r: Option<string>)
    requires i <= |s|
    ensures r.Some? ==> r.value != [] && forall k | 0 <= k < |r.value| :: !IsStop(r.value[k])
  {
    if !(i + |tag| <= |s| && StartsWithI(s[i..], tag)) then None
    else
      var q1 := SkipSpaces(s, i + |tag|);
      if q1 == |s| || !IsSeparator(s[q1]) then None
      else
        var q2 := SkipSpaces(s, q1 + 1);
        if q2 < |s| && !IsStop(s[q2]) then Some(s[q2..StopAt(s, q2)])
        else if q2 > q1 + 1 then Some(s[q2 - 1..q2])
        else None
  }

  /** The labels tried in order at one position; the first that matches wins. */
  function CaptureWithLabels(s: string, i: nat, labels: seq<string>): (r: Option<string>)
    requires i <= |s|
    ensures r.Some? ==> r.value != [] && forall k | 0 <= k < |r.value| :: !IsStop(r.value[k])
  {
    if labels == [] then None
    else match LabelCaptureAt(s, i, labels[0])
      case Some(v) => Some(v)
      case None =>
        var r := CaptureWithLabels(s, i, labels[1..]);
        assert forall l | 1 <= l < |labels| :: labels[l] == labels[1..][l - 1];
        r
  }

  /** The pattern matches at `i` with one of `labels`. */
  predicate CapturesAt(s: string, i: nat, labels: seq<string>) {
    i <= |s| && CaptureWithLabels(s, i, labels).Some?
  }

  /** `text.match(...)`: the value captured at the leftmost position where the pattern matches. */
  function LabelledValue(s: string, labels: seq<string>, from: nat): (r: Option<string>)
    requires from <= |s|
    ensures r.Some? ==> r.value != [] && forall k | 0 <= k < |r.value| :: !IsStop(r.value[k])
    ensures r.None? <==> forall i | from <= i :: !CapturesAt(s, i, labels)
    ensures r.Some? ==> exists i | from <= i <= |s| ::
      CaptureWithLabels(s, i, labels) == r && forall j | from <= j < i :: !CapturesAt(s, j, labels)
    decreases |s| - from
  {
    var here := CaptureWithLabels(s, from, labels);
    if here.Some? then
      assert CapturesAt(s, from, labels);
      here
    else if from == |s| then None
    else
      var r := LabelledValue(s, labels, from + 1);
      LabelledStep(s, labels, from, r);
      r
  }

  /** One step of the leftmost search for a labelled value: position `from` matched no label. */
  lemma LabelledStep(s: string, labels: seq<string>, from: nat, r: Option<string>)
    requires from < |s| && !CapturesAt(s, from, labels)
    requires r.Some? ==> exists i | from + 1 <= i <= |s| ::
      CaptureWithLabels(s, i, labels) == r && forall j | from + 1 <= j < i :: !CapturesAt(s, j, labels)
    requires r.None? <==> forall i | from + 1 <= i :: !CapturesAt(s, i, labels)
    ensures r.Some? ==> exists i | from <= i <= |s| ::
      CaptureWithLabels(s, i, labels) == r && forall j | from <= j < i :: !CapturesAt(s, j, labels)
    ensures r.None? <==> forall i | from <= i :: !CapturesAt(s, i, labels)
  {
    if r.Some? {
      var i :| from + 1 <= i <= |s| && CaptureWithLabels(s, i, labels) == r
               && forall j | from + 1 <= j < i :: !CapturesAt(s, j, labels);
      assert forall j | from <= j < i :: !CapturesAt(s, j, labels);
    }
  }

  // ---------------------------------------------------------------------------------------
  // The price: `R\$\s?[\d.,]+`

  predicate IsPriceChar(c: char) { IsDigit(c) || c == '.' || c == ',' }

  function PriceEnd(s: string, i: nat): (e: nat)
    requires i <= |s|
    ensures i <= e <= |s|
    ensures forall k | i <= k < e :: IsPriceChar(s[k])
    ensures e == |s| || !IsPriceChar(s[e])
    decreases |s| - i
  {
    if i < |s| && IsPriceChar(s[i]) then PriceEnd(s, i + 1) else i
  }

  /** The price matched at `i`: "R$", at most one blank, then a greedy run of digits, dots and commas. */
  function PriceAt(s: string, i: nat): (r: Option<string>)
    requires i <= |s|
    ensures r.Some? ==> StartsWith(r.value, "R$") && |r.value| >= 3
                        && IsPriceChar(r.value[|r.value| - 1])
  {
    if !(i + 2 <= |s| && s[i] == 'R' && s[i + 1] == '$') then None
    else if i + 3 < |s| && IsSpace(s[i + 2]) && IsPriceChar(s[i + 3]) then
      Some(s[i..PriceEnd(s, i + 3)])
    else if i + 2 < |s| && IsPriceChar(s[i + 2]) then
      Some(s[i..PriceEnd(s, i + 2)])
    else None
  }

  /** The leftmost price in the text. */
  function FirstPrice(s: string, from: nat): (r: Option<string>)
    requires from <= |s|
    ensures r.Some? ==> StartsWith(r.value, "R$") && |r.value| >= 3
                        && IsPriceChar(r.value[|r.value| - 1])
    ensures r.None? <==> forall i | from <= i <= |s| :: PriceAt(s, i).None?
    decreases |s| - from
  {
    match PriceAt(s, from)
    case Some(p) => Some(p)
    case None => if from == |s| then None else FirstPrice(s, from + 1)
  }

  /** The price found is the one that starts at the leftmost position that starts one. */
  lemma {:induction false} FirstPriceLeftmost(s: string, from: nat)
    requires from <= |s|
    ensures FirstPrice(s, from).Some? ==> exists i | from <= i <= |s| ::
      PriceAt(s, i) == FirstPrice(s, from) && forall j | from <= j < i :: PriceAt(s, j).None?
    decreases |s| - from
  {
    var r := FirstPrice(s, from);
    if PriceAt(s, from).Some? {
      assert PriceAt(s, from) == r;
    } else if from < |s| {
      FirstPriceLeftmost(s, from + 1);
      PriceStep(s, from, r);
    }
  }

  /** One step of the leftmost search for a price: position `from` found nothing. */
  lemma PriceStep(s: string, from: nat, r: Option<string>)
    requires from < |s| && PriceAt(s, from).None?
    requires r.Some? ==> exists i | from + 1 <= i <= |s| ::
      PriceAt(s, i) == r && forall j | from + 1 <= j < i :: PriceAt(s, j).None?
    ensures r.Some? ==> exists i | from <= i <= |s| ::
      PriceAt(s, i) == r && forall j | from <= j < i :: PriceAt(s, j).None?
  {
    if r.Some? {
      var i :| from + 1 <= i <= |s| && PriceAt(s, i) == r && forall j | from + 1 <= j < i :: PriceAt(s, j).None?;
      assert forall j | from <= j < i :: PriceAt(s, j).None?;
    }
  }

  // ---------------------------------------------------------------------------------------
  // Mining one file

  datatype Mining = Mining(cliente: string, impressora: string, valor: string, telefone: string)

  const Defaults: Mining := Mining(PlaceholderClient, PlaceholderEquipment, PlaceholderPrice, "")

  /**
   * The client taken from the file name: the second `-`-separated segment of the name
   * without its first ".docx", trimmed, when it does not read as an integer and is longer
   * than two characters.
   */
  function NameFallback(name: string): (r: Option<string>)
    ensures r.Some? ==> |r.value| > 2 && ParseIntNaN(r.value)
    ensures r.Some? ==> !IsSpace(r.value[0]) && !IsSpace(r.value[|r.value| - 1])
    ensures var parts := Split(ReplaceFirst(name, ".docx", ""), '-');
      && (r.Some? <==> |parts| > 1 && ParseIntNaN(Trim(parts[1])) && |Trim(parts[1])| > 2)
      && (r.Some? ==> r.value == Trim(parts[1]))
  {
    var parts := Split(ReplaceFirst(name, ".docx", ""), '-');
    if |parts| > 1 then FallbackCandidate(Trim(parts[1])) else None
  }

  /** The trimmed segment, kept when it does not read as an integer and is longer than two characters. */
  function FallbackCandidate(candidate: string): (r: Option<string>)
    requires candidate == [] || (!IsSpace(candidate[0]) && !IsSpace(candidate[|candidate| - 1]))
    ensures r.Some? <==> ParseIntNaN(candidate) && |candidate| > 2
    ensures r.Some? ==> r.value == candidate
  {
    if ParseIntNaN(candidate) && |candidate| > 2 then Some(candidate) else None
  }

  /** What a labelled value keeps: blanks collapsed, ends trimmed, cut to `width` characters. */
  function CleanValue(v: string, width: nat): (r: string)
    ensures |r| <= width
    ensures forall k | 0 <= k < |r| :: IsSpace(r[k]) ==> r[k] == ' '
    ensures forall k | 0 <= k < |r| - 1 :: !(IsSpace(r[k]) && IsSpace(r[k + 1]))
    ensures r == [] || !IsSpace(r[0])
    ensures r == if |CleanText(v)| <= width then CleanText(v) else CleanText(v)[..width]
  {
    Take(CleanText(v), width)
  }

  /** The fields mined from one file. */
  function MinedOf(name: string, body: Option<string>, phoneOf: string -> Option<string>): (m: Mining)
    ensures body.None? ==> m == Defaults
    ensures body.Some? ==> m.telefone == (match phoneOf(body.value)
                                          case None => "" case Some(t) => Trim(t))
    ensures body.Some? ==> m.valor == FirstPrice(body.value, 0).GetOr(PlaceholderPrice)
    ensures body.Some? && LabelledValue(body.value, ClientLabels, 0).Some? ==>
      m.cliente == CleanValue(LabelledValue(body.value, ClientLabels, 0).value, ClientWidth)
    ensures body.Some? && LabelledValue(body.value, ClientLabels, 0).None? ==>
      m.cliente == NameFallback(name).GetOr(PlaceholderClient)
    ensures body.Some? && LabelledValue(body.value, EquipmentLabels, 0).Some? ==>
      m.impressora == CleanValue(LabelledValue(body.value, EquipmentLabels, 0).value, EquipmentWidth)
    ensures body.None? || LabelledValue(body.value, EquipmentLabels, 0).None? ==>
      m.impressora == PlaceholderEquipment
  {
    match body
    case None => Defaults
    case Some(text) =>
      var telefone := match phoneOf(text) case None => "" case Some(t) => Trim(t);
      var valor := FirstPrice(text, 0).GetOr(PlaceholderPrice);
      var cliente := match LabelledValue(text, ClientLabels, 0)
        case Some(v) => CleanValue(v, ClientWidth)
        case None => NameFallback(name).GetOr(PlaceholderClient);
      var impressora := match LabelledValue(text, EquipmentLabels, 0)
        case Some(v) => CleanValue(v, EquipmentWidth)
        case None => PlaceholderEquipment;
      Mining(cliente, impressora, valor, telefone)
  }

  /** `file.toLowerCase().includes('entregue')`. */
  function StatusOf(name: string): (r: string)
    ensures r == Delivered <==> Contains(ToLower(name), "entregue")
    ensures r == Delivered || r == UnderReview
  {
    if Contains(ToLower(name), "entregue") then Delivered else UnderReview
  }

  /** The record a file becomes. */
  function RecordOf(f: DocFile, id: nat, date: string, phoneOf: string -> Option<string>): WorkOrder {
    var m := MinedOf(f.name, f.body, phoneOf);
    WorkOrder(id, date, m.cliente, m.telefone, m.impressora, LegacyDefect, m.valor, LegacyObs,
              StatusOf(f.name))
  }

  /**
   * The mining steps as the service writes them: the defaults are set first and each match
   * that is found overwrites one of them.
   */
  method MineFile(f: DocFile, phoneOf: string -> Option<string>) returns (m: Mining)
    ensures m == MinedOf(f.name, f.body, phoneOf)
  {
    var cliente := PlaceholderClient;
    var impressora := PlaceholderEquipment;
    var valor := PlaceholderPrice;
    var telefone := "";
    if f.body.Some? {
      var textBody := f.body.value;
      var telMatch := phoneOf(textBody);
      if telMatch.Some? {
        telefone := Trim(telMatch.value);
      }
      var valMatch := FirstPrice(textBody, 0);
      if valMatch.Some? {
        valor := valMatch.value;
      }
      var clienteMatch := LabelledValue(textBody, ClientLabels, 0);
      if clienteMatch.Some? {
        cliente := CleanValue(clienteMatch.value, ClientWidth);
      } else {
        var parts := Split(ReplaceFirst(f.name, ".docx", ""), '-');
        if |parts| > 1 {
          var possivelNome := Trim(parts[1]);
          if ParseIntNaN(possivelNome) && |possivelNome| > 2 {
            cliente := possivelNome;
          }
        }
      }
      var equipMatch := LabelledValue(textBody, EquipmentLabels, 0);
      if equipMatch.Some? {
        impressora := CleanValue(equipMatch.value, EquipmentWidth);
      }
    }
    m := Mining(cliente, impressora, valor, telefone);
  }

  // ---------------------------------------------------------------------------------------
  // The scan loop, as functions of the prefix already processed

  /**
   * The records pushed for the files processed so far, or `None` once a numbered file
   * could not be `stat`ed (which aborts the whole scan).
   */
  function RecoveredOf(docx: seq<DocFile>, phoneOf: string -> Option<string>): Option<seq<WorkOrder>> {
    if docx == [] then Some([])
    else
      var f := docx[|docx| - 1];
      match RecoveredOf(docx[..|docx| - 1], phoneOf)
      case None => None
      case Some(rs) =>
        match FileId(f.name)
        case None => Some(rs)
        case Some(id) =>
          if f.birth.None? then None else Some(rs + [RecordOf(f, id, f.birth.value, phoneOf)])
  }

  /** `maxId`: 3825 raised to every file number seen. */
  function MaxIdOf(docx: seq<DocFile>): int {
    if docx == [] then InitialCounter
    else
      var m := MaxIdOf(docx[..|docx| - 1]);
      match FileId(docx[|docx| - 1].name)
      case Some(id) => if id > m then id else m
      case None => m
  }

  /** The counter is the larger of 3825 and every file number, duplicates included. */
  lemma {:induction false} MaxIdBounds(docx: seq<DocFile>)
    ensures MaxIdOf(docx) >= InitialCounter
    ensures forall f | f in docx && FileId(f.name).Some? :: FileId(f.name).value <= MaxIdOf(docx)
    ensures MaxIdOf(docx) == InitialCounter
            || exists f | f in docx :: FileId(f.name) == Some(MaxIdOf(docx))
  {
    if docx != [] {
      var front, f := docx[..|docx| - 1], docx[|docx| - 1];
      assert docx == front + [f];
      MaxIdBounds(front);
    }
  }

  /** Position of the record with id `id` in the map's value list (`uniqueMap.has/get`). */
  function KeyIndex(m: seq<WorkOrder>, id: int): (r: Option<nat>)
    ensures r.Some? ==> r.value < |m| && m[r.value].os == id
    ensures r.None? ==> forall k | 0 <= k < |m| :: m[k].os != id
  {
    if m == [] then None
    else if m[|m| - 1].os == id then Some(|m| - 1)
    else KeyIndex(m[..|m| - 1], id)
  }

  /** One step of the `forEach`: a new id is added at the end; a known one is replaced only
      when the kept record has the placeholder client and the new one does not. */
  function Keep(m: seq<WorkOrder>, item: WorkOrder): seq<WorkOrder> {
    match KeyIndex(m, item.os)
    case None => m + [item]
    case Some(k) =>
      if m[k].cliente == PlaceholderClient && item.cliente != PlaceholderClient then m[k := item]
      else m
  }

  /** `Array.from(uniqueMap.values())` once every record has been seen. */
  function DedupOf(rs: seq<WorkOrder>): seq<WorkOrder> {
    if rs == [] then [] else Keep(DedupOf(rs[..|rs| - 1]), rs[|rs| - 1])
  }

  /** The whole scan. */
  function ScanOf(listing: Listing, phoneOf: string -> Option<string>): ScanReply {
    match listing
    case Missing => ScanReply(false, Some(Store(0, [])))
    case Unreadable => ScanReply(false, None)
    case Entries(files) =>
      var docx := Candidates(files);
      match RecoveredOf(docx, phoneOf)
      case None => ScanReply(false, None)
      case Some(rs) => ScanReply(true, Some(Store(MaxIdOf(docx), SortById(DedupOf(rs)))))
  }

  // ---------------------------------------------------------------------------------------
  // Which record survives deduplication

  /** The first position holding a record with id `id`. */
  function FirstWithId(rs: seq<WorkOrder>, id: int): (r: Option<nat>)
    ensures r.Some? ==> r.value < |rs| && rs[r.value].os == id
    ensures r.Some? ==> forall j | 0 <= j < r.value :: rs[j].os != id
    ensures r.None? ==> id !in Ids(rs)
  {
    if rs == [] then None
    else
      var front := rs[..|rs| - 1];
      assert rs == front + [rs[|rs| - 1]];
      IdsSnoc(front, rs[|rs| - 1]);
      match FirstWithId(front, id)
      case Some(i) => Some(i)
      case None => if rs[|rs| - 1].os == id then Some(|rs| - 1) else None
  }

  /** The first position holding a record with id `id` whose client was identified. */
  function FirstResolved(rs: seq<WorkOrder>, id: int): (r: Option<nat>)
    ensures r.Some? ==> r.value < |rs| && rs[r.value].os == id
                        && rs[r.value].cliente != PlaceholderClient
    ensures r.Some? ==> forall j | 0 <= j < r.value && rs[j].os == id :: rs[j].cliente == PlaceholderClient
    ensures r.None? ==> forall j | 0 <= j < |rs| && rs[j].os == id :: rs[j].cliente == PlaceholderClient
  {
    if rs == [] then None
    else
      var front, last := rs[..|rs| - 1], rs[|rs| - 1];
      assert rs == front + [last];
      match FirstResolved(front, id)
      case Some(i) => Some(i)
      case None =>
        if last.os == id && last.cliente != PlaceholderClient then Some(|rs| - 1) else None
  }

  /**
   * The record the deduplication should keep for `id`: the first one whose client was
   * identified, or the first one at all when every one has the placeholder client.
   */
  function Best(rs: seq<WorkOrder>, id: int): (b: WorkOrder)
    requires id in Ids(rs)
    ensures b in rs && b.os == id
    ensures b.cliente == PlaceholderClient <==> FirstResolved(rs, id).None?
  {
    match FirstResolved(rs, id)
    case Some(i) => rs[i]
    case None => rs[FirstWithId(rs, id).value]
  }

  lemma BestSnoc(rs: seq<WorkOrder>, x: WorkOrder, id: int)
    requires id in Ids(rs + [x])
    ensures id in Ids(rs) && (FirstResolved(rs, id).Some? || x.os != id
                              || x.cliente == PlaceholderClient) ==>
      Best(rs + [x], id) == Best(rs, id)
    ensures id in Ids(rs) && FirstResolved(rs, id).None? && x.os == id
            && x.cliente != PlaceholderClient ==>
      Best(rs + [x], id) == x
    ensures id !in Ids(rs) ==> x.os == id && Best(rs + [x], id) == x
  {
    var rs' := rs + [x];
    assert rs'[..|rs'| - 1] == rs;
    IdsSnoc(rs, x);
  }

  /** `d` holds one record per id of `rs`, and for each id the `Best` one. */
  predicate Chosen(d: seq<WorkOrder>, rs: seq<WorkOrder>) {
    && UniqueIds(d)
    && Ids(d) == Ids(rs)
    && forall k | 0 <= k < |d| :: d[k].os in Ids(rs) && d[k] == Best(rs, d[k].os)
  }

  /** Records whose id differs from the new one keep their choice. */
  lemma KeepOthers(front: seq<WorkOrder>, x: WorkOrder, d: seq<WorkOrder>, k: nat)
    requires Chosen(d, front) && k < |d| && d[k].os != x.os
    ensures d[k].os in Ids(front + [x]) && Best(front + [x], d[k].os) == d[k]
  {
    IdsSnoc(front, x);
    BestSnoc(front, x, d[k].os);
  }

  lemma KeepNew(front: seq<WorkOrder>, x: WorkOrder, d: seq<WorkOrder>)
    requires Chosen(d, front) && x.os !in Ids(d)
    ensures Chosen(d + [x], front + [x])
  {
    IdsSnoc(front, x);
    IdsSnoc(d, x);
    BestSnoc(front, x, x.os);
    var d' := d + [x];
    forall k | 0 <= k < |d'| ensures d'[k].os in Ids(front + [x]) && d'[k] == Best(front + [x], d'[k].os) {
      if k < |d| {
        assert d'[k] == d[k] && d[k] in d;
        KeepOthers(front, x, d, k);
      }
    }
    forall i, j | 0 <= i < j < |d'| ensures d'[i].os != d'[j].os {
      if j == |d| {
        assert d[i] in d;
      }
    }
  }

  lemma KeepReplace(front: seq<WorkOrder>, x: WorkOrder, d: seq<WorkOrder>, at: nat)
    requires Chosen(d, front) && at < |d| && d[at].os == x.os
    requires d[at].cliente == PlaceholderClient && x.cliente != PlaceholderClient
    ensures Chosen(d[at := x], front + [x])
  {
    IdsSnoc(front, x);
    IdsUpdate(d, at, x);
    BestSnoc(front, x, x.os);
    var d' := d[at := x];
    forall k | 0 <= k < |d'| ensures d'[k].os in Ids(front + [x]) && d'[k] == Best(front + [x], d'[k].os) {
      if k != at {
        assert d[k].os != d[at].os by {
          assert k < at ==> d[k].os != d[at].os;
          assert at < k ==> d[at].os != d[k].os;
        }
        KeepOthers(front, x, d, k);
      }
    }
  }

  lemma KeepSame(front: seq<WorkOrder>, x: WorkOrder, d: seq<WorkOrder>, at: nat)
    requires Chosen(d, front) && at < |d| && d[at].os == x.os
    requires !(d[at].cliente == PlaceholderClient && x.cliente != PlaceholderClient)
    ensures Chosen(d, front + [x])
  {
    IdsSnoc(front, x);
    BestSnoc(front, x, x.os);
    forall k | 0 <= k < |d| ensures d[k].os in Ids(front + [x]) && d[k] == Best(front + [x], d[k].os) {
      if k != at {
        assert d[k].os != d[at].os by {
          assert k < at ==> d[k].os != d[at].os;
          assert at < k ==> d[at].os != d[k].os;
        }
        KeepOthers(front, x, d, k);
      }
    }
  }

  /**
   * Deduplication keeps one record per id, for exactly the ids that were recovered, and for
   * each id the record chosen is `Best`: a resolved client beats the placeholder, and
   * otherwise the first one seen stays.
   */
  lemma {:induction false} DedupKeepsBest(rs: seq<WorkOrder>)
    ensures Chosen(DedupOf(rs), rs)
  {
    if rs != [] {
      var front, x := rs[..|rs| - 1], rs[|rs| - 1];
      assert rs == front + [x];
      DedupKeepsBest(front);
      var d := DedupOf(front);
      match KeyIndex(d, x.os)
      case None =>
        KeepNew(front, x, d);
      case Some(at) =>
        if d[at].cliente == PlaceholderClient && x.cliente != PlaceholderClient {
          KeepReplace(front, x, d, at);
        } else {
          KeepSame(front, x, d, at);
        }
    }
  }

  lemma {:induction false} RecoveredAbortStays(a: seq<DocFile>, b: seq<DocFile>, phoneOf: string -> Option<string>)
    requires RecoveredOf(a, phoneOf).None?
    ensures RecoveredOf(a + b, phoneOf).None?
    decreases |b|
  {
    if b != [] {
      var front := b[..|b| - 1];
      assert (a + b)[..|a + b| - 1] == a + front;
      RecoveredAbortStays(a, front, phoneOf);
    } else {
      assert a + b == a;
    }
  }

  // ---------------------------------------------------------------------------------------
  // What the scan returns

  /** The scan aborts exactly when some numbered document cannot be `stat`ed. */
  lemma {:induction false} RecoveredAbortIff(docx: seq<DocFile>, phoneOf: string -> Option<string>)
    ensures RecoveredOf(docx, phoneOf).None? <==>
      exists f | f in docx :: FileId(f.name).Some? && f.birth.None?
  {
    if docx != [] {
      var front, f := docx[..|docx| - 1], docx[|docx| - 1];
      assert docx == front + [f];
      RecoveredAbortIff(front, phoneOf);
    }
  }

  /**
   * Every pushed record comes from a numbered document, carries its number and creation
   * date and the fields mined from it; every numbered document pushed a record.
   */
  lemma RecoveredProvenance(docx: seq<DocFile>, phoneOf: string -> Option<string>)
    requires RecoveredOf(docx, phoneOf).Some?
    ensures forall y | y in RecoveredOf(docx, phoneOf).value :: exists f | f in docx ::
      FileId(f.name) == Some(y.os) && f.birth.Some? && y == RecordOf(f, y.os, f.birth.value, phoneOf)
    ensures forall f | f in docx && FileId(f.name).Some? ::
      FileId(f.name).value in Ids(RecoveredOf(docx, phoneOf).value)
  {
    RecoveredFromDocs(docx, phoneOf);
    RecoveredCoversDocs(docx, phoneOf);
  }

  lemma {:induction false} RecoveredFromDocs(docx: seq<DocFile>, phoneOf: string -> Option<string>)
    requires RecoveredOf(docx, phoneOf).Some?
    ensures forall y | y in RecoveredOf(docx, phoneOf).value :: exists f | f in docx ::
      FileId(f.name) == Some(y.os) && f.birth.Some? && y == RecordOf(f, y.os, f.birth.value, phoneOf)
  {
    if docx != [] {
      RecoveredFromDocs(docx[..|docx| - 1], phoneOf);
      var rs := RecoveredOf(docx[..|docx| - 1], phoneOf).value;
      var f := docx[|docx| - 1];
      if FileId(f.name).Some? {
        FromDocsSnoc(docx, rs, RecordOf(f, FileId(f.name).value, f.birth.value, phoneOf), phoneOf);
      } else {
        FromDocsKeep(docx, rs, phoneOf);
      }
    }
  }

  /** The inductive step of `RecoveredFromDocs` for a numbered last file, which adds its record. */
  lemma FromDocsSnoc(docx: seq<DocFile>, rs: seq<WorkOrder>, rec: WorkOrder, phoneOf: string -> Option<string>)
    requires docx != []
    requires forall y | y in rs :: exists g | g in docx[..|docx| - 1] ::
      FileId(g.name) == Some(y.os) && g.birth.Some? && y == RecordOf(g, y.os, g.birth.value, phoneOf)
    requires FileId(docx[|docx| - 1].name).Some? && docx[|docx| - 1].birth.Some?
    requires rec == RecordOf(docx[|docx| - 1], FileId(docx[|docx| - 1].name).value,
                             docx[|docx| - 1].birth.value, phoneOf)
    ensures forall y | y in rs + [rec] :: exists g | g in docx ::
      FileId(g.name) == Some(y.os) && g.birth.Some? && y == RecordOf(g, y.os, g.birth.value, phoneOf)
  {
    var f := docx[|docx| - 1];
    assert rec.os == FileId(f.name).value;
    forall y | y in rs + [rec]
      ensures exists g | g in docx ::
        FileId(g.name) == Some(y.os) && g.birth.Some? && y == RecordOf(g, y.os, g.birth.value, phoneOf)
    {
      if y == rec {
        assert f in docx;
      } else {
        assert y in rs;
        var g :| g in docx[..|docx| - 1] &&
          FileId(g.name) == Some(y.os) && g.birth.Some? && y == RecordOf(g, y.os, g.birth.value, phoneOf);
        assert g in docx;
      }
    }
  }

  /** The inductive step of `RecoveredFromDocs` for a last file that is skipped. */
  lemma FromDocsKeep(docx: seq<DocFile>, rs: seq<WorkOrder>, phoneOf: string -> Option<string>)
    requires docx != []
    requires forall y | y in rs :: exists g | g in docx[..|docx| - 1] ::
      FileId(g.name) == Some(y.os) && g.birth.Some? && y == RecordOf(g, y.os, g.birth.value, phoneOf)
    ensures forall y | y in rs :: exists g | g in docx ::
      FileId(g.name) == Some(y.os) && g.birth.Some? && y == RecordOf(g, y.os, g.birth.value, phoneOf)
  {
    forall y | y in rs
      ensures exists g | g in docx ::
        FileId(g.name) == Some(y.os) && g.birth.Some? && y == RecordOf(g, y.os, g.birth.value, phoneOf)
    {
      var g :| g in docx[..|docx| - 1] &&
        FileId(g.name) == Some(y.os) && g.birth.Some? && y == RecordOf(g, y.os, g.birth.value, phoneOf);
      assert g in docx;
    }
  }

  lemma {:induction false} RecoveredCoversDocs(docx: seq<DocFile>, phoneOf: string -> Option<string>)
    requires RecoveredOf(docx, phoneOf).Some?
    ensures forall f | f in docx && FileId(f.name).Some? ::
      FileId(f.name).value in Ids(RecoveredOf(docx, phoneOf).value)
  {
    if docx != [] {
      var front, f := docx[..|docx| - 1], docx[|docx| - 1];
      assert docx == front + [f];
      RecoveredCoversDocs(front, phoneOf);
      var rs := RecoveredOf(front, phoneOf).value;
      if FileId(f.name).Some? {
        IdsSnoc(rs, RecordOf(f, FileId(f.name).value, f.birth.value, phoneOf));
      }
    }
  }

  /** A listed folder is scanned successfully exactly when every numbered document can be `stat`ed. */
  lemma ScanSucceedsIff(files: seq<DocFile>, phoneOf: string -> Option<string>)
    ensures ScanOf(Entries(files), phoneOf).success <==>
      forall f | f in files && Eligible(f.name) && FileId(f.name).Some? :: f.birth.Some?
    ensures !ScanOf(Entries(files), phoneOf).success ==> ScanOf(Entries(files), phoneOf).data.None?
  {
    RecoveredAbortIff(Candidates(files), phoneOf);
  }

  /**
   * A successful scan returns a valid store: ids unique, sorted ascending, each in
   * 1..999999, and the counter at least 3825 and at least every number found, including
   * those of duplicates; the counter is 3825 or one of those numbers.
   */
  lemma ScanValid(files: seq<DocFile>, phoneOf: string -> Option<string>)
    requires ScanOf(Entries(files), phoneOf).success
    ensures var st := ScanOf(Entries(files), phoneOf).data.value;
      && Valid(st) && SortedById(st.historico)
      && (forall y | y in st.historico :: 1 <= y.os <= 999999)
      && st.ultimoNumero >= InitialCounter
      && (forall f | f in files && Eligible(f.name) && FileId(f.name).Some? ::
            FileId(f.name).value <= st.ultimoNumero)
      && (st.ultimoNumero == InitialCounter
          || exists f | f in files && Eligible(f.name) :: FileId(f.name) == Some(st.ultimoNumero))
  {
    var docx := Candidates(files);
    var rs := RecoveredOf(docx, phoneOf).value;
    var st := ScanOf(Entries(files), phoneOf).data.value;
    var d := DedupOf(rs);
    MaxIdBounds(docx);
    RecoveredIdsBounded(docx, phoneOf);
    DedupKeepsBest(rs);
    UniqueIdsOfPermutation(st.historico, d);
    forall y | y in st.historico ensures 1 <= y.os <= 999999 && y.os <= st.ultimoNumero {
      assert y in multiset(d);
      var k :| 0 <= k < |d| && d[k] == y;
      assert Best(rs, y.os) in rs;
    }
  }

  /** Every pushed record carries a file number, so it lies in 1..999999 and under the counter. */
  lemma {:induction false} RecoveredIdsBounded(docx: seq<DocFile>, phoneOf: string -> Option<string>)
    requires RecoveredOf(docx, phoneOf).Some?
    ensures forall y | y in RecoveredOf(docx, phoneOf).value :: 1 <= y.os <= 999999 && y.os <= MaxIdOf(docx)
  {
    if docx != [] {
      var front, f := docx[..|docx| - 1], docx[|docx| - 1];
      RecoveredIdsBounded(front, phoneOf);
      var rs := RecoveredOf(front, phoneOf).value;
      if FileId(f.name).Some? {
        var y := RecordOf(f, FileId(f.name).value, f.birth.value, phoneOf);
        assert RecoveredOf(docx, phoneOf).value == rs + [y];
      }
    }
  }

  /**
   * A successful scan has one record for each number found, and that record is `Best` of
   * the records recovered for it: it comes from a document with that number, and its
   * client is the placeholder only when every such document's was.
   */
  lemma ScanKeepsBest(files: seq<DocFile>, phoneOf: string -> Option<string>)
    requires ScanOf(Entries(files), phoneOf).success
    ensures var rs := RecoveredOf(Candidates(files), phoneOf).value;
            var st := ScanOf(Entries(files), phoneOf).data.value;
      && Ids(st.historico) == Ids(rs)
      && (forall f | f in files && Eligible(f.name) && FileId(f.name).Some? ::
            FileId(f.name).value in Ids(st.historico))
      && (forall y | y in st.historico :: y.os in Ids(rs) && y == Best(rs, y.os))
  {
    var docx := Candidates(files);
    var rs := RecoveredOf(docx, phoneOf).value;
    var st := ScanOf(Entries(files), phoneOf).data.value;
    var d := DedupOf(rs);
    RecoveredProvenance(docx, phoneOf);
    DedupKeepsBest(rs);
    IdsOfPermutation(st.historico, d);
    forall y | y in st.historico ensures y.os in Ids(rs) && y == Best(rs, y.os) {
      assert y in multiset(d);
      var k :| 0 <= k < |d| && d[k] == y;
    }
  }

  /**
   * Every record of a successful scan comes from an eligible document carrying its number:
   * its date is the document's creation date, its status follows the file name and its
   * other fields are those mined from the document.
   */
  lemma ScanProvenance(files: seq<DocFile>, phoneOf: string -> Option<string>)
    requires ScanOf(Entries(files), phoneOf).success
    ensures forall y | y in ScanOf(Entries(files), phoneOf).data.value.historico ::
      exists f | f in files && Eligible(f.name) ::
        FileId(f.name) == Some(y.os) && f.birth.Some? && y == RecordOf(f, y.os, f.birth.value, phoneOf)
  {
    var docx := Candidates(files);
    var rs := RecoveredOf(docx, phoneOf).value;
    var st := ScanOf(Entries(files), phoneOf).data.value;
    ScanKeepsBest(files, phoneOf);
    RecoveredProvenance(docx, phoneOf);
    forall y | y in st.historico ensures exists f | f in files && Eligible(f.name) ::
      FileId(f.name) == Some(y.os) && f.birth.Some? && y == RecordOf(f, y.os, f.birth.value, phoneOf)
    {
      assert y in rs;
      var f :| f in docx && FileId(f.name) == Some(y.os) && f.birth.Some?
               && y == RecordOf(f, y.os, f.birth.value, phoneOf);
    }
  }

  /**
   * A label followed only by a separator, a blank and a stop character still matches: the
   * engine gives the blank back to the capture, and the client becomes the empty string.
   */
  lemma BlankClientLabel()
    ensures LabelledValue("Cliente: .", ClientLabels, 0) == Some(" ")
    ensures CleanValue(" ", ClientWidth) == ""
  {
    var s := "Cliente: .";
    assert StartsWithI(s[0..], "Cliente");
    assert SkipSpaces(s, 7) == 7;
    assert SkipSpaces(s, 9) == 9;
    assert SkipSpaces(s, 8) == 9;
    assert IsSeparator(s[7]) && IsStop(s[9]) && s[8..9] == " ";
    assert LabelCaptureAt(s, 0, "Cliente") == Some(" ");
    assert CaptureWithLabels(s, 0, ClientLabels) == Some(" ");
    BlankCleansToEmpty();
  }

  lemma BlankCleansToEmpty()
    ensures CleanText(" ") == ""
  {
    assert SkipSpaces(" ", 0) == 1;
    assert CollapseSpaces(" ") == " ";
  }

  /** The `for` loop over the Word documents: the records pushed and `maxId`, or `None` when a `stat` throws. */
  method CollectRecords(docxFiles: seq<DocFile>, phoneOf: string -> Option<string>)
    returns (result: Option<seq<WorkOrder>>, maxId: int)
    ensures result == RecoveredOf(docxFiles, phoneOf)
    ensures result.Some? ==> maxId == MaxIdOf(docxFiles)
  {
    var recovered: seq<WorkOrder> := [];
    maxId := InitialCounter;
    for n := 0 to |docxFiles|
      invariant RecoveredOf(docxFiles[..n], phoneOf) == Some(recovered)
      invariant maxId == MaxIdOf(docxFiles[..n])
    {
      var file := docxFiles[n];
      RecoveredSnocAt(docxFiles, n, phoneOf);
      var idMatch := IdDigits(file.name);
      if idMatch.Some? {
        var id := DigitsValue(idMatch.value);
        if id > 0 {
          assert FileId(file.name) == Some(id);
          if id > maxId {
            maxId := id;
          }
          if file.birth.None? {
            RecoveredAbortAt(docxFiles, n, phoneOf);
            return None, maxId;
          }
          var dataArquivo := file.birth.value;
          var mined := MineFile(file, phoneOf);
          var item := WorkOrder(id, dataArquivo, mined.cliente, mined.telefone, mined.impressora,
                                LegacyDefect, mined.valor, LegacyObs, StatusOf(file.name));
          assert item == RecordOf(file, id, dataArquivo, phoneOf);
          recovered := recovered + [item];
        } else {
          assert FileId(file.name).None?;
        }
      } else {
        assert FileId(file.name).None?;
      }
    }
    assert docxFiles[..|docxFiles|] == docxFiles;
    result := Some(recovered);
  }

  lemma RecoveredSnocAt(files: seq<DocFile>, n: nat, phoneOf: string -> Option<string>)
    requires n < |files|
    ensures RecoveredOf(files[..n + 1], phoneOf) ==
      match RecoveredOf(files[..n], phoneOf)
      case None => None
      case Some(rs) =>
        match FileId(files[n].name)
        case None => Some(rs)
        case Some(id) =>
          if files[n].birth.None? then None else Some(rs + [RecordOf(files[n], id, files[n].birth.value, phoneOf)])
    ensures MaxIdOf(files[..n + 1]) ==
      match FileId(files[n].name)
      case Some(id) => if id > MaxIdOf(files[..n]) then id else MaxIdOf(files[..n])
      case None => MaxIdOf(files[..n])
  {
    assert files[..n + 1][..n] == files[..n];
  }

  lemma RecoveredAbortAt(files: seq<DocFile>, n: nat, phoneOf: string -> Option<string>)
    requires n < |files| && RecoveredOf(files[..n + 1], phoneOf).None?
    ensures RecoveredOf(files, phoneOf).None?
  {
    assert files == files[..n + 1] + files[n + 1..];
    RecoveredAbortStays(files[..n + 1], files[n + 1..], phoneOf);
  }

  /** The `forEach` that fills `uniqueMap`, read back as its list of values. */
  method Deduplicate(recovered: seq<WorkOrder>) returns (uniqueMap: seq<WorkOrder>)
    ensures uniqueMap == DedupOf(recovered)
  {
    uniqueMap := [];
    for n := 0 to |recovered|
      invariant uniqueMap == DedupOf(recovered[..n])
    {
      var item := recovered[n];
      assert recovered[..n + 1][..n] == recovered[..n];
      var at := KeyIndex(uniqueMap, item.os);
      if at.None? {
        uniqueMap := uniqueMap + [item];
      } else {
        var existing := uniqueMap[at.value];
        if existing.cliente == PlaceholderClient && item.cliente != PlaceholderClient {
          uniqueMap := uniqueMap[at.value := item];
        }
      }
    }
    assert recovered[..|recovered|] == recovered;
  }

  /** `scanFiles`. */
  method ScanFiles(listing: Listing, phoneOf: string -> Option<string>) returns (r: ScanReply)
    ensures r == ScanOf(listing, phoneOf)
  {
    if listing.Missing? {
      return ScanReply(false, Some(Store(0, [])));
    }
    if listing.Unreadable? {
      return ScanReply(false, None);
    }
    var docxFiles := Candidates(listing.files);
    var recovered, maxId := CollectRecords(docxFiles, phoneOf);
    if recovered.None? {
      return ScanReply(false, None);
    }
    var uniqueMap := Deduplicate(recovered.value);
    var uniqueRecovered := SortById(uniqueMap);
    return ScanReply(true, Some(Store(maxId, uniqueRecovered)));
  }
}
