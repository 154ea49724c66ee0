/**
 * The renderer's record-store hook (`useOSSystem`): the form that edits one work order,
 * the text that summarises the cables left with the equipment, and the four store
 * operations (create, edit in place, delete, reconcile with a recovery scan).
 *
 * The store operations are pure functions over `Store`; the class `OSSystem` holds the
 * hook's state (`db`, `form`, `editingId`) and its methods apply them. Calls into the
 * main process (save to disk, generate the document, delete the file, scan) are the
 * values the methods hand out or take in.
 */
module OSSystem {
  import opened Wrappers
  import opened Text
  import opened Types

  datatype Cabos = Cabos(forca: bool, usb: bool, cartuchos: bool, ligando: bool)

  /** `OSFormState`. */
  datatype FormState = FormState(
    cliente: string,
    telefone: string,
    impressora: string,
    orcamento: string,
    valor: string,
    obs: string,
    status: string,
    cabos: Cabos)

  const NoCabos: Cabos := Cabos(false, false, false, false)

  /** `INITIAL_FORM_STATE`. */
  const InitialForm: FormState :=
    FormState("", "", "", "Em andamento", "", "", "Em Análise", NoCabos)

  const LigandoTag: string := "[LIGANDO]"
  const CaboForca: string := "Cabo Força"
  const CaboUsb: string := "Cabo USB"
  const Cartuchos: string := "Cartuchos Ass."
  const CablesTaken: string := "Cliente levou os cabos"
  const PartSeparator: string := " - "

  // ---------------------------------------------------------------------------------------
  // The observation text (`buildObsString`), stated as the parts it is made of

  /** The power-on tag, unless the free text already mentions it. */
  function LigandoPart(c: Cabos, obs: string): seq<string> {
    if c.ligando && !Contains(ToUpper(obs), "LIGANDO") then [LigandoTag] else []
  }

  /** The items left with the equipment, in the fixed order power cable, USB cable, cartridges. */
  function ItemsLeft(c: Cabos): seq<string> {
    (if c.forca then [CaboForca] else [])
    + (if c.usb then [CaboUsb] else [])
    + (if c.cartuchos then [Cartuchos] else [])
  }

  /** "Deixou: ..." when something was left; "Cliente levou os cabos" when nothing was and no note was written. */
  function CablesPart(c: Cabos, obs: string): seq<string> {
    if ItemsLeft(c) != [] then ["Deixou: " + Join(ItemsLeft(c), ", ")]
    else if obs == "" then [CablesTaken]
    else []
  }

  function ObsPart(obs: string): seq<string> {
    if obs != "" then [obs] else []
  }

  /** The final observation text: the parts joined by " - ". */
  function ObsText(c: Cabos, obs: string): string {
    Join(LigandoPart(c, obs) + CablesPart(c, obs) + ObsPart(obs), PartSeparator)
  }

  // ---------------------------------------------------------------------------------------
  // Store operations

  /** The record `handleSave` appends, and also the payload it sends to the document generator. */
  function RecordOf(id: int, today: string, f: FormState, obs: string): WorkOrder {
    WorkOrder(id, today, f.cliente, f.telefone, f.impressora, f.orcamento, f.valor, obs, f.status)
  }

  /** Create: the new record gets `ultimo_numero + 1`, which becomes the counter. */
  function Created(db: Store, f: FormState, obs: string, today: string): (r: Store)
    ensures |r.historico| == |db.historico| + 1
    ensures r.historico[..|db.historico|] == db.historico
    ensures r.historico[|db.historico|].os == db.ultimoNumero + 1 == r.ultimoNumero
    ensures r.historico[|db.historico|] == RecordOf(db.ultimoNumero + 1, today, f, obs)
  {
    var id := db.ultimoNumero + 1;
    var rs := db.historico + [RecordOf(id, today, f, obs)];
    assert rs[..|db.historico|] == db.historico;
    Store(id, rs)
  }

  /** An edited record: the form's fields, the rebuilt observation text, same `os` and `data`. */
  function Updated(item: WorkOrder, f: FormState, obs: string): WorkOrder {
    item.(cliente := f.cliente, telefone := f.telefone, impressora := f.impressora,
          orcamento := f.orcamento, valor := f.valor, obs := obs, status := f.status)
  }

  /** Edit in place: only the records whose id is `id` change. */
  function Edited(db: Store, id: int, f: FormState, obs: string): (r: Store)
    ensures r.ultimoNumero == db.ultimoNumero && |r.historico| == |db.historico|
    ensures forall i | 0 <= i < |db.historico| && db.historico[i].os != id ::
      r.historico[i] == db.historico[i]
    ensures forall i | 0 <= i < |db.historico| && db.historico[i].os == id ::
      && r.historico[i].os == id && r.historico[i].data == db.historico[i].data
      && r.historico[i].cliente == f.cliente && r.historico[i].telefone == f.telefone
      && r.historico[i].impressora == f.impressora && r.historico[i].orcamento == f.orcamento
      && r.historico[i].valor == f.valor && r.historico[i].obs == obs
      && r.historico[i].status == f.status
  {
    var h := db.historico;
    Store(db.ultimoNumero,
          seq(|h|, i requires 0 <= i < |h| => if h[i].os == id then Updated(h[i], f, obs) else h[i]))
  }

  /** `historico.filter(item => item.os !== id)`. */
  function Without(h: seq<WorkOrder>, id: int): (r: seq<WorkOrder>)
    ensures forall y :: y in r <==> y in h && y.os != id
    ensures |r| <= |h|
  {
    if h == [] then []
    else Without(h[..|h| - 1], id) + (if h[|h| - 1].os != id then [h[|h| - 1]] else [])
  }

  /** Filtering distributes over concatenation, so the kept records stay in their order. */
  lemma {:induction false} WithoutConcat(a: seq<WorkOrder>, b: seq<WorkOrder>, id: int)
    ensures Without(a + b, id) == Without(a, id) + Without(b, id)
  {
    if b == [] {
      assert a + b == a;
    } else {
      var front, last := b[..|b| - 1], b[|b| - 1];
      assert (a + b)[..|a + b| - 1] == a + front;
      assert (a + b)[|a + b| - 1] == last;
      WithoutConcat(a, front, id);
    }
  }

  /** A single record is kept exactly when its id differs. */
  lemma WithoutSingle(y: WorkOrder, id: int)
    ensures Without([y], id) == if y.os != id then [y] else []
  {
    assert [y][..0] == [];
  }

  /** `Math.max(...h.map(i => i.os))`. */
  function MaxId(h: seq<WorkOrder>): (m: int)
    requires h != []
    ensures forall y | y in h :: y.os <= m
    ensures exists y | y in h :: y.os == m
  {
    if |h| == 1 then h[0].os
    else
      var m' := MaxId(h[..|h| - 1]);
      assert h == h[..|h| - 1] + [h[|h| - 1]];
      if h[|h| - 1].os > m' then h[|h| - 1].os else m'
  }

  /** Delete: every record with that id goes; the counter becomes the largest remaining id, or 3825. */
  function Deleted(db: Store, id: int): (r: Store)
    ensures forall y :: y in r.historico <==> y in db.historico && y.os != id
    ensures r.historico == Without(db.historico, id)
    ensures r.historico == [] ==> r.ultimoNumero == InitialCounter
    ensures forall y | y in r.historico :: y.os <= r.ultimoNumero
    ensures r.historico != [] ==> exists y | y in r.historico :: y.os == r.ultimoNumero
  {
    var rest := Without(db.historico, id);
    Store(if rest != [] then MaxId(rest) else InitialCounter, rest)
  }

  /** The recovered records whose id is not in the store yet. */
  function NewItems(h: seq<WorkOrder>, recovered: seq<WorkOrder>): (r: seq<WorkOrder>)
    ensures forall y :: y in r <==> y in recovered && y.os !in Ids(h)
  {
    if recovered == [] then []
    else
      var last := recovered[|recovered| - 1];
      assert recovered == recovered[..|recovered| - 1] + [last];
      NewItems(h, recovered[..|recovered| - 1]) + (if last.os !in Ids(h) then [last] else [])
  }

  /** The filter distributes over concatenation, so it keeps the scan's order and its repeats. */
  lemma {:induction false} NewItemsConcat(h: seq<WorkOrder>, a: seq<WorkOrder>, b: seq<WorkOrder>)
    ensures NewItems(h, a + b) == NewItems(h, a) + NewItems(h, b)
  {
    if b == [] {
      assert a + b == a;
    } else {
      var front, last := b[..|b| - 1], b[|b| - 1];
      assert (a + b)[..|a + b| - 1] == a + front;
      assert (a + b)[|a + b| - 1] == last;
      NewItemsConcat(h, a, front);
    }
  }

  /** A single recovered record is kept exactly when its id is not in the store. */
  lemma NewItemsSingle(h: seq<WorkOrder>, x: WorkOrder)
    ensures NewItems(h, [x]) == if x.os in Ids(h) then [] else [x]
  {
    assert [x][..0] == [];
  }

  /**
   * Reconcile with a recovery scan (`handleSyncFiles`): `None` when nothing new was found
   * (nothing is saved), otherwise the old records plus the new ones sorted by id, and the
   * larger of the two counters.
   */
  function Synced(db: Store, recovered: Store): Option<Store> {
    var added := NewItems(db.historico, recovered.historico);
    if added == [] then None
    else
      var counter := if db.ultimoNumero >= recovered.ultimoNumero
                     then db.ultimoNumero else recovered.ultimoNumero;
      Some(Store(counter, SortById(db.historico + added)))
  }

  /** `handleEdit`: the form shows the record's fields, with every cable box cleared. */
  function FormOf(item: WorkOrder): FormState {
    FormState(item.cliente, item.telefone, item.impressora, item.orcamento, item.valor,
              item.obs, item.status, NoCabos)
  }

  // ---------------------------------------------------------------------------------------
  // What the observation text says

  /** The text after the power-on tag. */
  function RestText(c: Cabos, obs: string): string {
    Join(CablesPart(c, obs) + ObsPart(obs), PartSeparator)
  }

  lemma ObsShape(c: Cabos, obs: string)
    ensures CablesPart(c, obs) + ObsPart(obs) != []
    ensures ObsText(c, obs) == if LigandoPart(c, obs) == [] then RestText(c, obs)
                               else LigandoTag + PartSeparator + RestText(c, obs)
    ensures CablesPart(c, obs) == [] ==> RestText(c, obs) == obs
    ensures CablesPart(c, obs) != [] && obs == "" ==> RestText(c, obs) == CablesPart(c, obs)[0]
    ensures CablesPart(c, obs) != [] && obs != "" ==>
      RestText(c, obs) == CablesPart(c, obs)[0] + PartSeparator + obs
  {
    var rest := CablesPart(c, obs) + ObsPart(obs);
    if LigandoPart(c, obs) != [] {
      assert LigandoPart(c, obs) + CablesPart(c, obs) + ObsPart(obs) == [LigandoTag] + rest;
      JoinCons(LigandoTag, rest, PartSeparator);
    }
    if CablesPart(c, obs) != [] && obs != "" {
      assert rest == [CablesPart(c, obs)[0]] + [obs];
      JoinCons(CablesPart(c, obs)[0], [obs], PartSeparator);
    }
  }

  /** The fixed cable texts contain neither a `g` nor a `G`, and the "Deixou" text no `v`. */
  lemma CablesPartLacks(c: Cabos, obs: string)
    ensures CablesPart(c, obs) != [] ==>
      'g' !in CablesPart(c, obs)[0] && 'G' !in CablesPart(c, obs)[0]
    ensures ItemsLeft(c) != [] ==> 'v' !in CablesPart(c, obs)[0]
  {
    if ItemsLeft(c) != [] {
      var j := Join(ItemsLeft(c), ", ");
      ItemsLack(c, 'g');
      ItemsLack(c, 'G');
      ItemsLack(c, 'v');
      assert CablesPart(c, obs)[0] == "Deixou: " + j;
    }
  }

  lemma ItemsLack(c: Cabos, ch: char)
    requires ch == 'g' || ch == 'G' || ch == 'v'
    ensures ch !in Join(ItemsLeft(c), ", ")
  {
    var items := ItemsLeft(c);
    forall i | 0 <= i < |items|
      ensures ch !in items[i]
    {
      assert items[i] == CaboForca || items[i] == CaboUsb || items[i] == Cartuchos;
    }
    JoinLacks(items, ", ", ch);
  }

  lemma UpperLacksG(s: string)
    requires 'g' !in s && 'G' !in s
    ensures 'G' !in ToUpper(s)
  {
    forall i | 0 <= i < |s| ensures ToUpper(s)[i] != 'G' {
      assert s[i] in s;
    }
  }

  /** Past the power-on tag, the text mentions "LIGANDO" exactly when the free note does. */
  lemma RestLigando(c: Cabos, obs: string)
    ensures Contains(ToUpper(RestText(c, obs)), "LIGANDO") <==> Contains(ToUpper(obs), "LIGANDO")
  {
    ObsShape(c, obs);
    CablesPartLacks(c, obs);
    RestCasesLigando(CablesPart(c, obs), obs, RestText(c, obs));
  }

  /** The three shapes of the text past the tag, each with a cables part lacking `g`. */
  lemma RestCasesLigando(cp: seq<string>, obs: string, rest: string)
    requires cp == [] ==> rest == obs
    requires cp != [] && obs == "" ==> rest == cp[0]
    requires cp != [] && obs != "" ==> rest == cp[0] + PartSeparator + obs
    requires cp != [] ==> 'g' !in cp[0] && 'G' !in cp[0]
    ensures Contains(ToUpper(rest), "LIGANDO") <==> Contains(ToUpper(obs), "LIGANDO")
  {
    var t := "LIGANDO";
    if cp != [] {
      UpperLacksG(cp[0]);
      if obs == "" {
        LacksCharNoContains(ToUpper(cp[0]), t, 2);
        LacksCharNoContains(ToUpper(obs), t, 0);
      } else {
        LigandoAfterHead(cp[0], obs);
      }
    }
  }

  /** Behind a head without a `G` and the separator, "LIGANDO" occurs exactly when it occurs in the note. */
  lemma LigandoAfterHead(head: string, obs: string)
    requires 'G' !in ToUpper(head)
    ensures Contains(ToUpper(head + PartSeparator + obs), "LIGANDO") <==> Contains(ToUpper(obs), "LIGANDO")
  {
    var t := "LIGANDO";
    var p := ToUpper(head) + PartSeparator;
    ToUpperConcat(head, PartSeparator);
    ToUpperConcat(head + PartSeparator, obs);
    assert ToUpper(PartSeparator) == PartSeparator;
    assert ToUpper(head + PartSeparator + obs) == p + ToUpper(obs);
    assert p[|p| - 2..] == "- ";
    ContainsPastPrefix(p, ToUpper(obs), t, 2);
    if Contains(ToUpper(obs), t) {
      ContainsInSuffix(p, ToUpper(obs), t);
    }
  }

  /**
   * The text mentions "LIGANDO" (in any case) exactly when the power-on box was ticked or
   * the free note already mentions it; the tag is never added twice.
   */
  lemma ObsTextLigando(c: Cabos, obs: string)
    ensures Contains(ToUpper(ObsText(c, obs)), "LIGANDO") <==>
      c.ligando || Contains(ToUpper(obs), "LIGANDO")
  {
    ObsShape(c, obs);
    RestLigando(c, obs);
    if LigandoPart(c, obs) != [] {
      TagLigando(RestText(c, obs));
    }
  }

  /** `toUpperCase` turns a dotless `ı` into `I`, so a note "lıgando" already mentions the tag. */
  lemma DotlessNoteHasLigando()
    ensures LigandoPart(Cabos(false, false, false, true), "l\U{0131}gando") == []
  {
    var obs := "l\U{0131}gando";
    assert ToUpper(obs) == "LIGANDO";
    assert OccursAt(ToUpper(obs), "LIGANDO", 0);
  }

  /** A text that starts with the power-on tag mentions "LIGANDO". */
  lemma TagLigando(rest: string)
    ensures Contains(ToUpper(LigandoTag + PartSeparator + rest), "LIGANDO")
  {
    ToUpperConcat(LigandoTag, PartSeparator + rest);
    assert LigandoTag + PartSeparator + rest == LigandoTag + (PartSeparator + rest);
    assert ToUpper(LigandoTag) == LigandoTag;
    assert OccursAt(LigandoTag, "LIGANDO", 1);
    ContainsInPrefix(ToUpper(LigandoTag), ToUpper(PartSeparator + rest), "LIGANDO");
  }

  /**
   * With no free note, the text records "Cliente levou os cabos" exactly when no cable
   * or cartridge box was ticked.
   */
  lemma ObsTextCablesTaken(c: Cabos, obs: string)
    requires obs == ""
    ensures Contains(ObsText(c, obs), CablesTaken) <==> ItemsLeft(c) == []
  {
    ObsShape(c, obs);
    CablesPartLacks(c, obs);
    var text := ObsText(c, obs);
    var rest := RestText(c, obs);
    var prefix := if LigandoPart(c, obs) == [] then "" else LigandoTag + PartSeparator;
    assert text == prefix + rest;
    if ItemsLeft(c) == [] {
      assert OccursAt(rest, CablesTaken, 0);
      ContainsInSuffix(prefix, rest, CablesTaken);
    } else {
      assert 'v' !in prefix;
      assert CablesTaken[10] == 'v';
      LacksCharNoContains(text, CablesTaken, 10);
    }
  }

  /** The text is never empty, and ends with the free note when there is one. */
  lemma ObsTextEndsWithObs(c: Cabos, obs: string)
    ensures ObsText(c, obs) != []
    ensures obs != "" ==> EndsWith(ObsText(c, obs), obs)
  {
    ObsShape(c, obs);
    var text := ObsText(c, obs);
    var rest := RestText(c, obs);
    var prefix := if LigandoPart(c, obs) == [] then "" else LigandoTag + PartSeparator;
    assert text == prefix + rest;
    if obs != "" {
      var front := if CablesPart(c, obs) == [] then "" else CablesPart(c, obs)[0] + PartSeparator;
      assert rest == front + obs;
      assert text == (prefix + front) + obs;
      assert text[|text| - |obs|..] == obs;
    }
  }

  // ---------------------------------------------------------------------------------------
  // What the store operations keep

  lemma InIds(h: seq<WorkOrder>, y: WorkOrder)
    requires y in h
    ensures y.os in Ids(h)
  {
    var k :| 0 <= k < |h| && h[k] == y;
  }

  /** Creating keeps ids unique and the counter an upper bound: `ultimoNumero + 1` was fresh. */
  lemma CreatePreservesValid(db: Store, f: FormState, obs: string, today: string)
    requires Valid(db)
    ensures Valid(Created(db, f, obs, today))
    ensures db.ultimoNumero + 1 !in Ids(db.historico)
  {
    var r := Created(db, f, obs, today);
    var n := |db.historico|;
    forall i | 0 <= i < n ensures r.historico[i] == db.historico[i] {
      assert r.historico[..n][i] == r.historico[i];
    }
  }

  lemma {:induction false} WithoutAbsent(h: seq<WorkOrder>, id: int)
    requires forall y | y in h :: y.os != id
    ensures Without(h, id) == h
  {
    if h != [] {
      var front := h[..|h| - 1];
      assert h == front + [h[|h| - 1]];
      WithoutAbsent(front, id);
    }
  }

  /** Deleting the record just created gives back the previous record list. */
  lemma DeleteUndoesCreate(db: Store, f: FormState, obs: string, today: string)
    requires Valid(db)
    ensures Deleted(Created(db, f, obs, today), db.ultimoNumero + 1).historico == db.historico
  {
    var r := Created(db, f, obs, today);
    var id := db.ultimoNumero + 1;
    assert r.historico[..|r.historico| - 1] == db.historico;
    assert Without(r.historico, id) == Without(db.historico, id);
    WithoutAbsent(db.historico, id);
  }

  lemma {:induction false} WithoutUnique(h: seq<WorkOrder>, id: int)
    requires UniqueIds(h)
    ensures UniqueIds(Without(h, id))
  {
    if h != [] {
      var front, last := h[..|h| - 1], h[|h| - 1];
      assert UniqueIds(front);
      WithoutUnique(front, id);
      forall y | y in Without(front, id) ensures y.os != last.os {
        var k :| 0 <= k < |front| && front[k] == y;
        assert h[k].os != h[|h| - 1].os;
      }
    }
  }

  /** Deleting keeps ids unique and resets the counter to a bound of what remains. */
  lemma DeletePreservesValid(db: Store, id: int)
    requires Valid(db)
    ensures Valid(Deleted(db, id))
    ensures id !in Ids(Deleted(db, id).historico)
  {
    var r := Deleted(db, id);
    WithoutUnique(db.historico, id);
    forall i | 0 <= i < |r.historico| ensures r.historico[i].os <= r.ultimoNumero {
      assert r.historico[i] in r.historico;
    }
  }

  /** Editing changes no id, so it keeps the invariant. */
  lemma EditPreservesValid(db: Store, id: int, f: FormState, obs: string)
    requires Valid(db)
    ensures Valid(Edited(db, id, f, obs))
    ensures Ids(Edited(db, id, f, obs).historico) == Ids(db.historico)
  {
    var r := Edited(db, id, f, obs);
    assert forall i | 0 <= i < |r.historico| :: r.historico[i].os == db.historico[i].os;
  }

  /**
   * Opening a record in the form and saving it unchanged leaves the store as it was,
   * provided its note is not empty (an empty note comes back as "Cliente levou os cabos").
   */
  lemma ResaveUnchanged(db: Store, item: WorkOrder)
    requires Valid(db) && item in db.historico && item.obs != ""
    ensures ObsText(FormOf(item).cabos, FormOf(item).obs) == item.obs
    ensures Edited(db, item.os, FormOf(item), item.obs) == db
  {
    ObsShape(NoCabos, item.obs);
    var h := db.historico;
    var r := Edited(db, item.os, FormOf(item), item.obs);
    var k :| 0 <= k < |h| && h[k] == item;
    forall i | 0 <= i < |h| ensures r.historico[i] == h[i] {
      assert h[i].os == h[k].os ==> i == k;
    }
  }

  /** Nothing is saved exactly when every recovered id is already in the store. */
  lemma SyncNoneIff(db: Store, recovered: Store)
    ensures Synced(db, recovered).None? <==>
      forall i | 0 <= i < |recovered.historico| :: recovered.historico[i].os in Ids(db.historico)
  {
    var added := NewItems(db.historico, recovered.historico);
    if added != [] {
      assert added[0] in added;
    }
  }

  /**
   * A reconciliation keeps every existing record, adds only recovered records with new
   * ids, sorts by id and keeps the larger of the two counters.
   */
  lemma SyncAdditive(db: Store, recovered: Store)
    requires Synced(db, recovered).Some?
    ensures var m := Synced(db, recovered).value;
      && multiset(m.historico) == multiset(db.historico) + multiset(NewItems(db.historico, recovered.historico))
      && SortedById(m.historico)
      && m.ultimoNumero >= db.ultimoNumero && m.ultimoNumero >= recovered.ultimoNumero
      && (m.ultimoNumero == db.ultimoNumero || m.ultimoNumero == recovered.ultimoNumero)
      && (forall y | y in db.historico :: y in m.historico)
      && (forall y | y in m.historico :: y in db.historico
                                         || (y in recovered.historico && y.os !in Ids(db.historico)))
  {
    var m := Synced(db, recovered).value;
    forall y | y in db.historico ensures y in m.historico {
      assert y in multiset(m.historico);
    }
    forall y | y in m.historico
      ensures y in db.historico || (y in recovered.historico && y.os !in Ids(db.historico))
    {
      assert y in multiset(m.historico);
    }
  }

  /** Reconciling twice with the same scan saves nothing the second time. */
  lemma SyncIdempotent(db: Store, recovered: Store)
    requires Synced(db, recovered).Some?
    ensures Synced(Synced(db, recovered).value, recovered).None?
  {
    var m := Synced(db, recovered).value;
    SyncAdditive(db, recovered);
    forall i | 0 <= i < |recovered.historico| ensures recovered.historico[i].os in Ids(m.historico) {
      var y := recovered.historico[i];
      if y.os in Ids(db.historico) {
        var k :| 0 <= k < |db.historico| && db.historico[k].os == y.os;
        assert db.historico[k] in db.historico;
        InIds(m.historico, db.historico[k]);
      } else {
        assert y in NewItems(db.historico, recovered.historico);
        assert y in multiset(m.historico);
        InIds(m.historico, y);
      }
    }
    SyncNoneIff(m, recovered);
  }

  lemma {:induction false} NewItemsUnique(h: seq<WorkOrder>, recovered: seq<WorkOrder>)
    requires UniqueIds(recovered)
    ensures UniqueIds(NewItems(h, recovered))
  {
    if recovered != [] {
      var front, last := recovered[..|recovered| - 1], recovered[|recovered| - 1];
      assert UniqueIds(front);
      NewItemsUnique(h, front);
      forall y | y in NewItems(h, front) ensures y.os != last.os {
        var k :| 0 <= k < |front| && front[k] == y;
        assert recovered[k].os != recovered[|recovered| - 1].os;
      }
    }
  }

  lemma UniqueIdsConcat(a: seq<WorkOrder>, b: seq<WorkOrder>)
    requires UniqueIds(a) && UniqueIds(b)
    requires forall y | y in b :: y.os !in Ids(a)
    ensures UniqueIds(a + b)
  {
    forall i, j | 0 <= i < j < |a + b| ensures (a + b)[i].os != (a + b)[j].os {
      if i < |a| && j >= |a| {
        assert (a + b)[j] == b[j - |a|] && b[j - |a|] in b;
        InIds(a, a[i]);
      }
    }
  }

  /**
   * A scan whose own records have unique ids under its counter keeps the store valid:
   * reconciliation never produces two records with the same id.
   */
  lemma SyncPreservesValid(db: Store, recovered: Store)
    requires Valid(db) && Valid(recovered)
    requires Synced(db, recovered).Some?
    ensures Valid(Synced(db, recovered).value)
  {
    var m := Synced(db, recovered).value;
    var added := NewItems(db.historico, recovered.historico);
    NewItemsUnique(db.historico, recovered.historico);
    UniqueIdsConcat(db.historico, added);
    UniqueIdsOfPermutation(m.historico, db.historico + added);
    SyncAdditive(db, recovered);
    BoundFromSources(m.historico, db.historico, recovered.historico, db.ultimoNumero, recovered.ultimoNumero, m.ultimoNumero);
  }

  /** Starting from no records, a scan that repeats an id brings the repetition into the store. */
  lemma SyncRepeatedId(db: Store, recovered: Store)
    requires db.historico == [] && !UniqueIds(recovered.historico)
    ensures Synced(db, recovered).Some?
    ensures !UniqueIds(Synced(db, recovered).value.historico)
  {
    var rs := recovered.historico;
    WithoutStoreAllNew(rs);
    assert rs != [] by {
      var i, j :| 0 <= i < j < |rs| && rs[i].os == rs[j].os;
    }
    var m := Synced(db, recovered).value.historico;
    assert db.historico + rs == rs;
    if UniqueIds(m) {
      UniqueIdsOfPermutation(rs, m);
    }
  }

  /** Two recovered records with one id that the store lacks both pass the filter. */
  lemma NewItemsKeepsRepeats(h: seq<WorkOrder>, rs: seq<WorkOrder>, i: nat, j: nat)
    requires i < j < |rs| && rs[i].os == rs[j].os && rs[i].os !in Ids(h)
    ensures !UniqueIds(NewItems(h, rs))
  {
    var x, y := rs[i], rs[j];
    var a, b, c := rs[..i], rs[i + 1..j], rs[j + 1..];
    assert rs == a + [x] + b + [y] + c;
    NewItemsConcat(h, a + [x] + b + [y], c);
    NewItemsConcat(h, a + [x] + b, [y]);
    NewItemsConcat(h, a + [x], b);
    NewItemsConcat(h, a, [x]);
    NewItemsSingle(h, x);
    NewItemsSingle(h, y);
    var n := NewItems(h, rs);
    var p := |NewItems(h, a)|;
    var q := p + 1 + |NewItems(h, b)|;
    assert n == NewItems(h, a) + [x] + NewItems(h, b) + [y] + NewItems(h, c);
    assert n[p] == x && n[q] == y;
  }

  /**
   * For any store, a recovered id it lacks that the scan repeats is repeated in the
   * reconciled store.
   */
  lemma SyncKeepsRepeats(db: Store, recovered: Store, i: nat, j: nat)
    requires i < j < |recovered.historico|
    requires recovered.historico[i].os == recovered.historico[j].os
    requires recovered.historico[i].os !in Ids(db.historico)
    ensures Synced(db, recovered).Some?
    ensures !UniqueIds(Synced(db, recovered).value.historico)
  {
    var h, rs := db.historico, recovered.historico;
    var added := NewItems(h, rs);
    NewItemsKeepsRepeats(h, rs, i, j);
    assert rs[i] in rs;
    assert rs[i] in added;
    var m := Synced(db, recovered).value.historico;
    if UniqueIds(m) {
      UniqueIdsOfPermutation(h + added, m);
      UniqueIdsSuffix(h, added);
      assert false;
    }
  }

  lemma UniqueIdsSuffix(a: seq<WorkOrder>, b: seq<WorkOrder>)
    requires UniqueIds(a + b)
    ensures UniqueIds(b)
  {
    forall i, j | 0 <= i < j < |b| ensures b[i].os != b[j].os {
      assert b[i] == (a + b)[|a| + i] && b[j] == (a + b)[|a| + j];
    }
  }

  /** Against an empty store, every recovered record is new. */
  lemma {:induction false} WithoutStoreAllNew(rs: seq<WorkOrder>)
    ensures NewItems([], rs) == rs
  {
    if rs != [] {
      assert rs == rs[..|rs| - 1] + [rs[|rs| - 1]];
      WithoutStoreAllNew(rs[..|rs| - 1]);
    }
  }

  // ---------------------------------------------------------------------------------------
  // Reconciliation that keeps one record per id

  /**
   * The recovered records whose id is neither in the store nor taken by an earlier
   * recovered record: the first record found for each new id.
   */
  function NewItemsDistinct(h: seq<WorkOrder>, recovered: seq<WorkOrder>): (r: seq<WorkOrder>)
    ensures forall y | y in r :: y in recovered && y.os !in Ids(h)
    ensures UniqueIds(r)
    ensures Ids(r) == Ids(recovered) - Ids(h)
  {
    if recovered == [] then []
    else
      var front, last := recovered[..|recovered| - 1], recovered[|recovered| - 1];
      assert recovered == front + [last];
      var kept := NewItemsDistinct(h, front);
      var r := if last.os !in Ids(h) && last.os !in Ids(kept) then kept + [last] else kept;
      DistinctStep(h, front, last, kept, r);
      r
  }

  lemma DistinctStep(h: seq<WorkOrder>, front: seq<WorkOrder>, last: WorkOrder, kept: seq<WorkOrder>, r: seq<WorkOrder>)
    requires forall y | y in kept :: y in front && y.os !in Ids(h)
    requires UniqueIds(kept) && Ids(kept) == Ids(front) - Ids(h)
    requires r == if last.os !in Ids(h) && last.os !in Ids(kept) then kept + [last] else kept
    ensures forall y | y in r :: y in front + [last] && y.os !in Ids(h)
    ensures UniqueIds(r)
    ensures Ids(r) == Ids(front + [last]) - Ids(h)
  {
    IdsConcat(front, [last]);
    assert Ids([last]) == {last.os};
    if r != kept {
      forall y | y in kept ensures y.os != last.os { InIds(kept, y); }
      UniqueIdsConcat(kept, [last]);
      IdsConcat(kept, [last]);
    }
  }

  /** On a scan whose ids are already unique, nothing changes: both filters keep the same records. */
  lemma {:induction false} DistinctAgrees(h: seq<WorkOrder>, recovered: seq<WorkOrder>)
    requires UniqueIds(recovered)
    ensures NewItemsDistinct(h, recovered) == NewItems(h, recovered)
  {
    if recovered != [] {
      var front, last := recovered[..|recovered| - 1], recovered[|recovered| - 1];
      assert recovered == front + [last];
      assert UniqueIds(front);
      DistinctAgrees(h, front);
    }
  }

  /** `handleSyncFiles` with the deduplicating filter. */
  function SyncedDistinct(db: Store, recovered: Store): Option<Store> {
    var added := NewItemsDistinct(db.historico, recovered.historico);
    if added == [] then None
    else
      var counter := if db.ultimoNumero >= recovered.ultimoNumero
                     then db.ultimoNumero else recovered.ultimoNumero;
      Some(Store(counter, SortById(db.historico + added)))
  }

  /**
   * With the deduplicating filter a reconciliation keeps the store valid for any scan whose
   * ids are under its counter, repeated ids included, and every recovered id is then present.
   */
  lemma SyncDistinctPreservesValid(db: Store, recovered: Store)
    requires Valid(db) && IdsAtMost(recovered.historico, recovered.ultimoNumero)
    requires SyncedDistinct(db, recovered).Some?
    ensures Valid(SyncedDistinct(db, recovered).value)
    ensures Ids(SyncedDistinct(db, recovered).value.historico) == Ids(db.historico) + Ids(recovered.historico)
  {
    var m := SyncedDistinct(db, recovered).value;
    var added := NewItemsDistinct(db.historico, recovered.historico);
    UniqueIdsConcat(db.historico, added);
    UniqueIdsOfPermutation(m.historico, db.historico + added);
    forall y | y in m.historico ensures y in db.historico || y in recovered.historico {
      assert y in multiset(m.historico);
      assert y in multiset(db.historico + added);
    }
    BoundFromSources(m.historico, db.historico, recovered.historico, db.ultimoNumero, recovered.ultimoNumero, m.ultimoNumero);
    IdsOfPermutation(m.historico, db.historico + added);
    IdsConcat(db.historico, added);
  }

  /** Records drawn from two stores stay under a counter at least both of theirs. */
  lemma BoundFromSources(h: seq<WorkOrder>, a: seq<WorkOrder>, b: seq<WorkOrder>, na: int, nb: int, n: int)
    requires IdsAtMost(a, na) && IdsAtMost(b, nb) && na <= n && nb <= n
    requires forall y | y in h :: y in a || y in b
    ensures IdsAtMost(h, n)
  {
    forall i | 0 <= i < |h| ensures h[i].os <= n {
      var y := h[i];
      assert y in h;
      if y in a {
        var k :| 0 <= k < |a| && a[k] == y;
      } else {
        var k :| 0 <= k < |b| && b[k] == y;
      }
    }
  }

  // ---------------------------------------------------------------------------------------
  // The hook's state

  class OSSystem {
    var db: Store
    var form: FormState
    var editingId: Option<int>

    constructor ()
      ensures db == DefaultStore && form == InitialForm && editingId == None
    {
      db := DefaultStore;
      form := InitialForm;
      editingId := None;
    }

    /** `handleClear`. */
    method Clear()
      modifies this
      ensures db == old(db) && form == InitialForm && editingId == None
    {
      editingId := None;
      form := InitialForm;
    }

    /** `handleEdit`. */
    method Edit(item: WorkOrder)
      modifies this
      ensures db == old(db) && form == FormOf(item) && editingId == Some(item.os)
    {
      editingId := Some(item.os);
      form := FormOf(item);
    }

    /** `buildObsString`, step by step as the hook pushes into its part lists. */
    method BuildObsString() returns (text: string)
      ensures text == ObsText(form.cabos, form.obs)
    {
      var parts: seq<string> := [];
      var cabos, obs := form.cabos, form.obs;
      if cabos.ligando && !Contains(ToUpper(obs), "LIGANDO") {
        parts := parts + [LigandoTag];
      }
      var itens: seq<string> := [];
      if cabos.forca { itens := itens + [CaboForca]; }
      if cabos.usb { itens := itens + [CaboUsb]; }
      if cabos.cartuchos { itens := itens + [Cartuchos]; }
      assert itens == ItemsLeft(cabos);
      if |itens| > 0 {
        parts := parts + ["Deixou: " + Join(itens, ", ")];
      } else if obs == "" && !cabos.forca && !cabos.usb {
        parts := parts + [CablesTaken];
      }
      if obs != "" {
        parts := parts + [obs];
      }
      assert parts == LigandoPart(cabos, obs) + CablesPart(cabos, obs) + ObsPart(obs);
      text := Join(parts, PartSeparator);
    }

    /**
     * `handleSave`: refused while the client name is empty; otherwise creates or edits,
     * hands the new store to the disk (`saved`) and the record to the document generator
     * (`doc`, dated today even when editing), and clears the form.
     */
    method Save(today: string) returns (saved: Option<Store>, doc: Option<WorkOrder>)
      modifies this
      ensures old(form.cliente) == "" ==>
        saved == None && doc == None && db == old(db) && form == old(form) && editingId == old(editingId)
      ensures old(form.cliente) != "" ==>
        var obs := ObsText(old(form.cabos), old(form.obs));
        && db == (if old(editingId).None? then Created(old(db), old(form), obs, today)
                  else Edited(old(db), old(editingId).value, old(form), obs))
        && saved == Some(db)
        && doc == Some(RecordOf(if old(editingId).None? then old(db).ultimoNumero + 1
                                else old(editingId).value, today, old(form), obs))
        && form == InitialForm && editingId == None
    {
      if form.cliente == "" {
        return None, None;
      }
      var obsFinal := BuildObsString();
      var currentId: int;
      if editingId.None? {
        currentId := db.ultimoNumero + 1;
        db := Created(db, form, obsFinal, today);
      } else {
        currentId := editingId.value;
        db := Edited(db, currentId, form, obsFinal);
      }
      saved := Some(db);
      var f := form;
      Clear();
      doc := Some(RecordOf(currentId, today, f, obsFinal));
    }

    /**
     * `handleDelete`: nothing happens unless a record is being edited (a non-zero id) and
     * the user confirms; then the file deletion is requested (`fileRequest`), the records
     * with that id are deleted, the store is saved and the form is cleared.
     */
    method Delete(confirmed: bool) returns (fileRequest: Option<int>, saved: Option<Store>)
      modifies this
      ensures (old(editingId).None? || old(editingId).value == 0 || !confirmed) ==>
        fileRequest == None && saved == None
        && db == old(db) && form == old(form) && editingId == old(editingId)
      ensures (old(editingId).Some? && old(editingId).value != 0 && confirmed) ==>
        && fileRequest == old(editingId)
        && db == Deleted(old(db), old(editingId).value) && saved == Some(db)
        && form == InitialForm && editingId == None
    {
      if editingId.None? || editingId.value == 0 || !confirmed {
        return None, None;
      }
      var id := editingId.value;
      fileRequest := Some(id);
      db := Deleted(db, id);
      saved := Some(db);
      Clear();
    }

    /**
     * `handleSyncFiles`: after confirmation, a successful scan is reconciled with the store;
     * a failed scan, or one that found nothing new, saves nothing.
     */
    method Sync(confirmed: bool, scan: ScanReply) returns (saved: Option<Store>)
      modifies this
      ensures form == old(form) && editingId == old(editingId)
      ensures saved.Some? <==> confirmed && scan.success && scan.data.Some?
                               && Synced(old(db), scan.data.value).Some?
      ensures saved.Some? ==> saved == Synced(old(db), scan.data.value) && db == saved.value
      ensures saved.None? ==> db == old(db)
    {
      if !confirmed || !scan.success || scan.data.None? {
        return None;
      }
      saved := Synced(db, scan.data.value);
      if saved.Some? {
        db := saved.value;
      }
    }
  }
}
