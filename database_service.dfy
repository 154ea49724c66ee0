/**
 * The database file (`DatabaseService`): `load` reads and parses it, falling back to the
 * default store; `save` refuses malformed payloads and an empty list that would wipe a file
 * holding more than ten records, then writes a temporary file and renames it over the
 * database, so that the database file always holds either its old or its new content.
 *
 * JSON text is abstracted: a file holds a store, a JSON value without a `historico` list
 * (such as `null` or `{}`), or something that cannot be read or parsed.
 */
module DatabaseService {
  import opened Wrappers
  import opened Types

  datatype Content = StoreJson(store: Store) | Shapeless | Corrupt

  /** What `load` hands back: a store, or the parsed value that has no store shape. */
  datatype Loaded = Records(store: Store) | NotAStore

  /** The payload of `save`: `null`, an object without a `historico` list, or a store. */
  datatype Incoming = NoData | NoHistory | Data(store: Store)

  datatype SaveReply = Saved | Refused(message: string) | Threw

  const InvalidMessage: string := "Dados inválidos ou corrompidos."
  const WipeMessage: string :=
    "Bloqueio de Segurança: O sistema tentou apagar todos os registros. Operação cancelada."
  const WipeThreshold: nat := 10

  /** `load`: a missing, unreadable or unparsable file gives the default store. */
  function LoadOf(target: Option<Content>): (r: Loaded)
    ensures r.NotAStore? <==> target == Some(Shapeless)
    ensures target.None? || target == Some(Corrupt) ==> r == Records(DefaultStore)
  {
    match target
    case None => Records(DefaultStore)
    case Some(StoreJson(st)) => Records(st)
    case Some(Shapeless) => NotAStore
    case Some(Corrupt) => Records(DefaultStore)
  }

  /**
   * The checks `save` makes before touching the disk, and the reply when one of them stops
   * it: a malformed payload, an empty list over a file that loads with more than ten
   * records, or a file whose loaded value has no list to count (`historico.length` throws).
   */
  function Guard(target: Option<Content>, data: Incoming): Option<SaveReply> {
    if !data.Data? then Some(Refused(InvalidMessage))
    else if data.store.historico == [] && target.Some? then
      match LoadOf(target)
      case NotAStore => Some(Threw)
      case Records(current) =>
        if |current.historico| > WipeThreshold then Some(Refused(WipeMessage)) else None
    else None
  }

  /** A save goes ahead exactly for a store payload that does not empty a file of more than ten records. */
  lemma GuardPassesIff(target: Option<Content>, data: Incoming)
    ensures Guard(target, data).None? <==>
      && data.Data?
      && (|| data.store.historico != []
          || target.None? || target == Some(Corrupt)
          || (target.value.StoreJson? && |target.value.store.historico| <= WipeThreshold))
    ensures Guard(target, data) == Some(Refused(WipeMessage)) <==>
      data.Data? && data.store.historico == [] && target.Some? && target.value.StoreJson?
      && |target.value.store.historico| > WipeThreshold
  {
  }

  class DatabaseFile {
    /** The database file, and the `.tmp` file next to it. */
    var target: Option<Content>
    var temp: Option<Content>

    constructor (target0: Option<Content>, temp0: Option<Content>)
      ensures target == target0 && temp == temp0
    {
      target := target0;
      temp := temp0;
    }

    function Load(): (r: Loaded)
      reads this
      ensures r == LoadOf(target)
    {
      LoadOf(target)
    }

    /**
     * `save(data)`. `writeOk` and `renameOk` say whether the disk accepts the temporary
     * write and the rename. A refused save changes no file; a failed write leaves a partial
     * temporary file; a failed rename leaves the new content in the temporary file. In every
     * case the database file holds its old content or exactly the new store.
     */
    method Save(data: Incoming, writeOk: bool, renameOk: bool) returns (r: SaveReply)
      modifies this
      ensures Guard(old(target), data).Some? ==>
        r == Guard(old(target), data).value && target == old(target) && temp == old(temp)
      ensures Guard(old(target), data).None? && writeOk && renameOk ==>
        r == Saved && target == Some(StoreJson(data.store)) && temp == None
      ensures Guard(old(target), data).None? && !writeOk ==>
        r == Threw && target == old(target) && temp == Some(Corrupt)
      ensures Guard(old(target), data).None? && writeOk && !renameOk ==>
        r == Threw && target == old(target) && temp == Some(StoreJson(data.store))
      ensures r == Saved ==> Load() == Records(data.store)
      ensures target == old(target) || (r == Saved && target == Some(StoreJson(data.store)))
    {
      if !data.Data? {
        return Refused(InvalidMessage);
      }
      if data.store.historico == [] && target.Some? {
        var currentData := Load();
        if currentData.NotAStore? {
          return Threw;
        }
        if |currentData.store.historico| > WipeThreshold {
          return Refused(WipeMessage);
        }
      }
      var jsonContent := StoreJson(data.store);
      if !writeOk {
        temp := Some(Corrupt);
        return Threw;
      }
      temp := Some(jsonContent);
      if !renameOk {
        return Threw;
      }
      target := temp;
      temp := None;
      return Saved;
    }
  }
}
