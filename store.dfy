/** The category table as the service sees it, and the service operations
    that change it: create (append at the end of the language), update
    (overwrite the given fields), change position (move one category and
    renumber its language) and delete (remove one row, renumber nothing). */
module Store {
  import opened Errors
  import opened Categories
  import opened Positions

  /** The ids occurring in `cats`. */
  function IdsOf(cats: seq<Category>): set<Id> {
    set t | 0 <= t < |cats| :: cats[t].id
  }

  /** The table after the category `id` moves from `from` to `target`
      inside `lang`: each row of `lang` gets the remap, rows of other
      languages stay as they are. */
  function MoveInStore(rows: seq<Category>, lang: Language, id: Id, from: int, target: int): (r: seq<Category>)
    ensures |r| == |rows|
    ensures forall i :: 0 <= i < |rows| ==> r[i] == rows[i].(position := r[i].position)
    ensures forall i :: 0 <= i < |rows| && rows[i].language != lang ==> r[i] == rows[i]
  {
    if rows == [] then []
    else
      [if rows[0].language == lang then Shifted(rows[0], id, from, target) else rows[0]]
      + MoveInStore(rows[1..], lang, id, from, target)
  }

  lemma {:induction false} MoveInStoreAt(rows: seq<Category>, lang: Language, id: Id, from: int, target: int, i: nat)
    requires i < |rows|
    ensures MoveInStore(rows, lang, id, from, target)[i]
         == if rows[i].language == lang then Shifted(rows[i], id, from, target) else rows[i]
  {
    if i > 0 {
      MoveInStoreAt(rows[1..], lang, id, from, target, i - 1);
    }
  }

  /** Selecting a language after the move gives the remap of that language
      before the move; every other language is selected unchanged. */
  lemma {:induction false} MoveInStoreByLanguage(rows: seq<Category>, lang: Language, id: Id, from: int, target: int, l: Language)
    ensures OfLanguage(MoveInStore(rows, lang, id, from, target), l)
         == if l == lang then Remap(OfLanguage(rows, lang), id, from, target) else OfLanguage(rows, l)
  {
    if rows != [] {
      MoveInStoreByLanguage(rows[1..], lang, id, from, target, l);
      var moved := MoveInStore(rows, lang, id, from, target);
      assert moved[1..] == MoveInStore(rows[1..], lang, id, from, target);
      if rows[0].language == lang {
        var cats := OfLanguage(rows, lang);
        assert cats[1..] == OfLanguage(rows[1..], lang);
      }
    }
  }

  lemma {:induction false} OfLanguageUniqueIds(rows: seq<Category>, l: Language)
    requires UniqueIds(rows)
    ensures UniqueIds(OfLanguage(rows, l))
  {
    if rows != [] {
      var rest := rows[1..];
      assert UniqueIds(rest) by {
        forall i, j | 0 <= i < |rest| && 0 <= j < |rest| && rest[i].id == rest[j].id ensures i == j {
          assert rest[i] == rows[i + 1] && rest[j] == rows[j + 1];
        }
      }
      OfLanguageUniqueIds(rest, l);
      forall c | c in OfLanguage(rest, l) ensures c.id != rows[0].id {
        var j :| 0 <= j < |rest| && rest[j] == c;
        assert rows[j + 1] == c;
      }
    }
  }

  lemma {:induction false} OfLanguageConcat(a: seq<Category>, b: seq<Category>, l: Language)
    ensures OfLanguage(a + b, l) == OfLanguage(a, l) + OfLanguage(b, l)
  {
    if a == [] {
      assert a + b == b;
    } else {
      assert (a + b)[0] == a[0];
      assert (a + b)[1..] == a[1..] + b;
      OfLanguageConcat(a[1..], b, l);
      if a[0].language == l {
        assert OfLanguage(a + b, l) == [a[0]] + (OfLanguage(a[1..], l) + OfLanguage(b, l));
        assert OfLanguage(a, l) == [a[0]] + OfLanguage(a[1..], l);
      } else {
        assert OfLanguage(a + b, l) == OfLanguage(a[1..], l) + OfLanguage(b, l);
        assert OfLanguage(a, l) == OfLanguage(a[1..], l);
      }
    }
  }

  /** An entry of the remapped language list is the shifted copy of the
      table row with the same id. */
  lemma RemappedEntryIsShiftedRow(rows: seq<Category>, lang: Language, id: Id, from: int, target: int, t: nat, j: nat)
    requires UniqueIds(rows) && j < |rows|
    requires t < |OfLanguage(rows, lang)|
    requires Remap(OfLanguage(rows, lang), id, from, target)[t].id == rows[j].id
    ensures rows[j].language == lang
    ensures Remap(OfLanguage(rows, lang), id, from, target)[t] == Shifted(rows[j], id, from, target)
  {
    var cats := OfLanguage(rows, lang);
    RemapAt(cats, id, from, target, t);
    assert cats[t] in rows;
    var j' :| 0 <= j' < |rows| && rows[j'] == cats[t];
  }

  /** Every table row of `lang` has an entry in the remapped language list. */
  lemma LanguageRowIsRemapped(rows: seq<Category>, lang: Language, id: Id, from: int, target: int, j: nat)
    requires j < |rows| && rows[j].language == lang
    ensures exists t :: 0 <= t < |OfLanguage(rows, lang)|
                     && Remap(OfLanguage(rows, lang), id, from, target)[t].id == rows[j].id
  {
    var cats := OfLanguage(rows, lang);
    assert rows[j] in cats;
    var t :| 0 <= t < |cats| && cats[t] == rows[j];
    RemapAt(cats, id, from, target, t);
  }

  /** The remapped language list agrees with the moved table: an entry and
      the table row with its id differ from the row before the move only
      in the entry's position, and every row of the language has an entry. */
  lemma RemapAgreesWithMove(rows: seq<Category>, lang: Language, id: Id, from: int, target: int)
    requires UniqueIds(rows)
    ensures forall t, j ::
      (0 <= t < |Remap(OfLanguage(rows, lang), id, from, target)| && 0 <= j < |rows| &&
       rows[j].id == Remap(OfLanguage(rows, lang), id, from, target)[t].id) ==>
      MoveInStore(rows, lang, id, from, target)[j]
        == rows[j].(position := Remap(OfLanguage(rows, lang), id, from, target)[t].position)
    ensures forall j :: 0 <= j < |rows| && rows[j].language == lang ==>
      rows[j].id in IdsOf(Remap(OfLanguage(rows, lang), id, from, target))
  {
    var updated := Remap(OfLanguage(rows, lang), id, from, target);
    forall t, j | 0 <= t < |updated| && 0 <= j < |rows| && rows[j].id == updated[t].id
      ensures MoveInStore(rows, lang, id, from, target)[j] == rows[j].(position := updated[t].position)
    {
      MoveInStoreAt(rows, lang, id, from, target, j);
      RemappedEntryIsShiftedRow(rows, lang, id, from, target, t, j);
    }
    forall j | 0 <= j < |rows| && rows[j].language == lang ensures rows[j].id in IdsOf(updated) {
      LanguageRowIsRemapped(rows, lang, id, from, target, j);
    }
  }

  /** The table's positions are dense in every language. */
  ghost predicate DenseLanguages(rows: seq<Category>) {
    forall l :: Dense(OfLanguage(rows, l))
  }

  /** A move inside a dense language to a target in 1..N leaves every
      language dense. */
  lemma MoveKeepsLanguagesDense(rows: seq<Category>, k: nat, target: int)
    requires UniqueIds(rows) && k < |rows|
    requires DenseLanguages(rows)
    requires 1 <= target <= |OfLanguage(rows, rows[k].language)|
    ensures DenseLanguages(MoveInStore(rows, rows[k].language, rows[k].id, rows[k].position, target))
  {
    var lang := rows[k].language;
    var cats := OfLanguage(rows, lang);
    OfLanguageUniqueIds(rows, lang);
    assert rows[k] in cats;
    var kc :| 0 <= kc < |cats| && cats[kc] == rows[k];
    RemapKeepsDense(cats, kc, target);
    forall l ensures Dense(OfLanguage(MoveInStore(rows, lang, rows[k].id, rows[k].position, target), l)) {
      MoveInStoreByLanguage(rows, lang, rows[k].id, rows[k].position, target, l);
    }
  }

  /** Moving a category to the position it already holds leaves the whole
      table as it was. */
  lemma MoveToCurrentPositionKeepsTable(rows: seq<Category>, k: nat)
    requires UniqueIds(rows) && k < |rows|
    ensures MoveInStore(rows, rows[k].language, rows[k].id, rows[k].position, rows[k].position) == rows
  {
    var moved := MoveInStore(rows, rows[k].language, rows[k].id, rows[k].position, rows[k].position);
    forall j | 0 <= j < |rows| ensures moved[j] == rows[j] {
      MoveInStoreAt(rows, rows[k].language, rows[k].id, rows[k].position, rows[k].position, j);
    }
  }

  /** Moving a category away and then back to where it was restores the
      whole table, provided no other category of its language shared its
      position. */
  lemma MoveBackRestoresTable(rows: seq<Category>, k: nat, target: int)
    requires UniqueIds(rows) && k < |rows|
    requires forall j :: 0 <= j < |rows| && j != k && rows[j].language == rows[k].language ==>
      rows[j].position != rows[k].position
    ensures
      var lang, id, from := rows[k].language, rows[k].id, rows[k].position;
      MoveInStore(MoveInStore(rows, lang, id, from, target), lang, id, target, from) == rows
  {
    var lang, id, from := rows[k].language, rows[k].id, rows[k].position;
    var there := MoveInStore(rows, lang, id, from, target);
    var back := MoveInStore(there, lang, id, target, from);
    forall j | 0 <= j < |rows| ensures back[j] == rows[j] {
      MoveInStoreAt(rows, lang, id, from, target, j);
      MoveInStoreAt(there, lang, id, target, from, j);
      if rows[j].language == lang {
        MovedPositionBack(rows[j].position, rows[j].id == id, from, target);
      }
    }
  }

  /** Appending a row of `lang` at the last position plus one leaves every
      language dense. */
  lemma AppendKeepsLanguagesDense(rows: seq<Category>, c: Category)
    requires DenseLanguages(rows)
    requires c.position == LastPosition(OfLanguage(rows, c.language)) + 1
    ensures DenseLanguages(rows + [c])
  {
    forall l ensures Dense(OfLanguage(rows + [c], l)) {
      OfLanguageConcat(rows, [c], l);
      assert OfLanguage([c], l) == if c.language == l then [c] else [];
      if c.language == l {
        AppendKeepsDense(OfLanguage(rows, l), c);
      }
    }
  }

  /** Removing one row removes exactly its position from its language's
      positions: no other position moves, so a gap is left behind unless
      the row held the last position. */
  lemma DeleteLeavesPositions(rows: seq<Category>, k: nat)
    requires k < |rows|
    requires DistinctPositions(OfLanguage(rows, rows[k].language))
    ensures PositionSet(OfLanguage(rows[..k] + rows[k + 1..], rows[k].language))
         == PositionSet(OfLanguage(rows, rows[k].language)) - {rows[k].position}
  {
    var l := rows[k].language;
    SelectAround(rows, k, l);
    RemoveOnePosition(OfLanguage(rows[..k], l), rows[k], OfLanguage(rows[k + 1..], l));
  }

  /** Removing one row removes one occurrence of its position from its
      language's positions and changes no other position, whatever
      positions the language held before. */
  lemma DeleteRemovesOnePosition(rows: seq<Category>, k: nat)
    requires k < |rows|
    ensures PositionBag(OfLanguage(rows[..k] + rows[k + 1..], rows[k].language))
         == PositionBag(OfLanguage(rows, rows[k].language)) - multiset{rows[k].position}
  {
    var l := rows[k].language;
    var a, b := OfLanguage(rows[..k], l), OfLanguage(rows[k + 1..], l);
    SelectAround(rows, k, l);
    PositionBagConcat(a + [rows[k]], b);
    PositionBagConcat(a, [rows[k]]);
    PositionBagConcat(a, b);
    assert PositionBag([rows[k]]) == multiset{rows[k].position} by {
      assert [rows[k]][1..] == [];
    }
  }

  /** Selecting a language around row `k`, with and without that row. */
  lemma SelectAround(rows: seq<Category>, k: nat, l: Language)
    requires k < |rows| && rows[k].language == l
    ensures OfLanguage(rows, l) == OfLanguage(rows[..k], l) + [rows[k]] + OfLanguage(rows[k + 1..], l)
    ensures OfLanguage(rows[..k] + rows[k + 1..], l) == OfLanguage(rows[..k], l) + OfLanguage(rows[k + 1..], l)
  {
    SplitAt(rows, k);
    OfLanguageConcat(rows[..k], [rows[k]] + rows[k + 1..], l);
    OfLanguageConcat([rows[k]], rows[k + 1..], l);
    OfLanguageConcat(rows[..k], rows[k + 1..], l);
    assert OfLanguage([rows[k]], l) == [rows[k]];
  }

  lemma SplitAt(rows: seq<Category>, k: nat)
    requires k < |rows|
    ensures rows == rows[..k] + ([rows[k]] + rows[k + 1..])
  {
    assert rows[k..] == [rows[k]] + rows[k + 1..];
    assert rows == rows[..k] + rows[k..];
  }

  lemma RemoveOnePosition(before: seq<Category>, x: Category, after: seq<Category>)
    requires DistinctPositions(before + [x] + after)
    ensures PositionSet(before + after) == PositionSet(before + [x] + after) - {x.position}
  {
    var whole := before + [x] + after;
    assert whole[|before|] == x;
    forall c | c in before + after ensures c in whole && c.position != x.position {
      if c in before {
        var j :| 0 <= j < |before| && before[j] == c;
        assert whole[j] == c;
      } else {
        var j :| 0 <= j < |after| && after[j] == c;
        assert whole[|before| + 1 + j] == c;
      }
    }
    forall c | c in whole && c.position != x.position ensures c in before + after {
    }
  }

  /** A dense language [1, 2, 3] with its middle category deleted keeps
      positions {1, 3}: not dense, and the next create gets position 4. */
  lemma DeleteMiddleLeavesGap()
    ensures
      var en := "en";
      var rows := [Category(0, en, "A", "", None, None, 1),
                   Category(1, en, "B", "", None, None, 2),
                   Category(2, en, "C", "", None, None, 3)];
      var after := rows[..1] + rows[2..];
      Dense(OfLanguage(rows, en)) && !Dense(OfLanguage(after, en)) &&
      LastPosition(OfLanguage(after, en)) + 1 == 4
  {
    var en := "en";
    var rows := [Category(0, en, "A", "", None, None, 1),
                 Category(1, en, "B", "", None, None, 2),
                 Category(2, en, "C", "", None, None, 3)];
    assert OfLanguage(rows, en) == rows;
    assert OfLanguage(rows[..1] + rows[2..], en) == [rows[0], rows[2]];
  }

  /** The field overwrite of an update: a non-empty request field replaces
      the stored one; id and position are never touched, even when the
      language changes. */
  function Updated(c: Category, req: UpdateRequest): (r: Category)
    ensures r.id == c.id && r.position == c.position
    ensures r.language == (if req.language != "" then req.language else c.language)
    ensures r.title == (if req.title != "" then req.title else c.title)
    ensures r.description == (if req.description != "" then req.description else c.description)
    ensures r.isAvailable == (if req.isAvailable.Some? then req.isAvailable else c.isAvailable)
    ensures r.imageUrl == (if req.imageUrl != "" then Some(req.imageUrl) else c.imageUrl)
  {
    var c1 := if req.language != "" then c.(language := req.language) else c;
    var c2 := if req.title != "" then c1.(title := req.title) else c1;
    var c3 := if req.description != "" then c2.(description := req.description) else c2;
    var c4 := if req.isAvailable.Some? then c3.(isAvailable := req.isAvailable) else c3;
    if req.imageUrl != "" then c4.(imageUrl := Some(req.imageUrl)) else c4
  }

  /** Moving a category to another language by an update keeps its
      position, which may already be taken there. */
  lemma UpdateLanguageCanDuplicatePosition()
    ensures
      var rows := [Category(0, "en", "A", "", None, None, 1),
                   Category(1, "fr", "B", "", None, None, 1)];
      var after := rows[0 := Updated(rows[0], UpdateRequest(0, "fr", "", "", None, ""))];
      DenseLanguages(rows) && !Dense(OfLanguage(after, "fr"))
  {
    var rows := [Category(0, "en", "A", "", None, None, 1),
                 Category(1, "fr", "B", "", None, None, 1)];
    var after := rows[0 := Updated(rows[0], UpdateRequest(0, "fr", "", "", None, ""))];
    assert OfLanguage(after, "fr") == after;
    forall l ensures Dense(OfLanguage(rows, l)) {
      if l == "en" {
        assert OfLanguage(rows, l) == [rows[0]];
      } else if l == "fr" {
        assert OfLanguage(rows, l) == [rows[1]];
      } else {
        assert OfLanguage(rows, l) == [];
      }
    }
  }

  class MenuCategoryStore {
    /** The category table, in insertion order. */
    var rows: seq<Category>
    /** The id the next created row receives. */
    var nextId: Id

    ghost predicate Valid()
      reads this
    {
      UniqueIds(rows) && forall i :: 0 <= i < |rows| ==> rows[i].id < nextId
    }

    constructor ()
      ensures Valid() && rows == [] && nextId == 0
    {
      rows, nextId := [], 0;
    }

    /** Looks a category up by id. A missing id raises not-found inside the
        `try`, whose `catch` turns it into an internal error. */
    function CategoryById(id: Id): (r: Result<Category>)
      reads this
      ensures r.Ok? <==> exists i :: 0 <= i < |rows| && rows[i].id == id
      ensures r.Ok? ==> r.value in rows && r.value.id == id
      ensures r.Err? ==> r.error == Internal
    {
      match IndexOf(rows, id)
      case None => Err(Internal)
      case Some(k) => Ok(rows[k])
    }

    /** Creates a category at the end of its language, unless the language
        already has a category with the same title. */
    method CreateCategory(req: CreateRequest) returns (r: Result<Category>)
      requires Valid()
      modifies this
      ensures Valid()
      ensures HasTitle(OfLanguage(old(rows), req.language), req.title) ==>
        r == Err(Conflict) && rows == old(rows) && nextId == old(nextId)
      ensures !HasTitle(OfLanguage(old(rows), req.language), req.title) ==>
        r.Ok? && rows == old(rows) + [r.value] && nextId == old(nextId) + 1 &&
        r.value == Category(old(nextId), req.language, req.title, req.description, req.isAvailable,
                            if req.imageUrl != "" then Some(req.imageUrl) else None,
                            LastPosition(OfLanguage(old(rows), req.language)) + 1)
    {
      var existing := OfLanguage(rows, req.language);
      if HasTitle(existing, req.title) {
        return Err(Conflict);
      }
      var lastPosition := LastPosition(existing);
      var created := Category(nextId, req.language, req.title, req.description, req.isAvailable,
                              if req.imageUrl != "" then Some(req.imageUrl) else None,
                              lastPosition + 1);
      rows := rows + [created];
      nextId := nextId + 1;
      r := Ok(created);
    }

    /** Overwrites the fields the request sets on the row with its id. */
    method UpdateCategory(req: UpdateRequest) returns (r: Result<Category>)
      requires Valid()
      modifies this
      ensures Valid() && nextId == old(nextId)
      ensures IndexOf(old(rows), req.id).None? ==> r == Err(Internal) && rows == old(rows)
      ensures IndexOf(old(rows), req.id).Some? ==>
        var k := IndexOf(old(rows), req.id).value;
        rows == old(rows)[k := Updated(old(rows)[k], req)] && r == Ok(rows[k])
    {
      var found := IndexOf(rows, req.id);
      if found.None? {
        return Err(Internal);
      }
      var k := found.value;
      rows := rows[k := Updated(rows[k], req)];
      r := Ok(rows[k]);
    }

    /** Writes a new position into the row with `id`, leaving its other
        fields and every other row as they are. */
    method SetPosition(id: Id, position: int)
      modifies this
      ensures nextId == old(nextId) && |rows| == |old(rows)|
      ensures forall j :: 0 <= j < |rows| ==>
        rows[j] == if old(rows)[j].id == id then old(rows)[j].(position := position) else old(rows)[j]
    {
      rows := seq(|rows|, j requires 0 <= j < |rows| reads this =>
        if rows[j].id == id then rows[j].(position := position) else rows[j]);
    }

    /** Writes the position of each entry of `updated` into the row with
        the same id, one update at a time. `moved` is the table these
        writes are meant to produce: it agrees with every entry on the
        row the entry names. Afterwards each row named by some entry is
        its `moved` version and every other row is unchanged. */
    method WritePositions(updated: seq<Category>, ghost moved: seq<Category>)
      requires |moved| == |rows|
      requires forall t, j :: 0 <= t < |updated| && 0 <= j < |rows| && rows[j].id == updated[t].id ==>
        moved[j] == rows[j].(position := updated[t].position)
      modifies this
      ensures nextId == old(nextId) && |rows| == |old(rows)|
      ensures forall j :: 0 <= j < |rows| ==>
        rows[j] == if old(rows)[j].id in IdsOf(updated) then moved[j] else old(rows)[j]
    {
      var i := 0;
      while i < |updated|
        invariant 0 <= i <= |updated|
        invariant nextId == old(nextId) && |rows| == |old(rows)|
        invariant forall j :: 0 <= j < |rows| ==>
          rows[j] == if old(rows)[j].id in IdsOf(updated[..i]) then moved[j] else old(rows)[j]
      {
        SetPosition(updated[i].id, updated[i].position);
        assert IdsOf(updated[..i + 1]) == IdsOf(updated[..i]) + {updated[i].id} by {
          assert updated[..i + 1] == updated[..i] + [updated[i]];
        }
        i := i + 1;
      }
      assert updated[..i] == updated;
    }

    /** Moves the category `id` to `position` within its language and
        renumbers the categories it displaces. The target is not range
        checked. A missing id fails before anything is written and, being
        raised inside the `try`, surfaces as an internal error. */
    method ChangePosition(id: Id, position: int) returns (r: Result<Category>)
      requires Valid()
      modifies this
      ensures Valid() && nextId == old(nextId)
      ensures IndexOf(old(rows), id).None? ==> r == Err(Internal) && rows == old(rows)
      ensures IndexOf(old(rows), id).Some? ==>
        var moving := old(rows)[IndexOf(old(rows), id).value];
        rows == MoveInStore(old(rows), moving.language, id, moving.position, position) &&
        r == Ok(moving.(position := position))
    {
      var found := IndexOf(rows, id);
      if found.None? {
        return Err(Internal);
      }
      var k := found.value;
      var categoryToUpdate := rows[k];
      var lang, from := categoryToUpdate.language, categoryToUpdate.position;
      var categories := OfLanguage(rows, lang);
      var updatedCategories := Remap(categories, id, from, position);

      RemapAgreesWithMove(rows, lang, id, from, position);
      WritePositions(updatedCategories, MoveInStore(rows, lang, id, from, position));
      r := Ok(rows[k]);
    }

    /** Deletes the row with `id`. The other rows, and in particular their
        positions, are left as they are. */
    method DeleteCategory(id: Id) returns (r: Result<StatusResponse>)
      requires Valid()
      modifies this
      ensures Valid() && nextId == old(nextId)
      ensures IndexOf(old(rows), id).None? ==> r == Err(Internal) && rows == old(rows)
      ensures IndexOf(old(rows), id).Some? ==>
        var k := IndexOf(old(rows), id).value;
        rows == old(rows)[..k] + old(rows)[k + 1..] &&
        r == Ok(StatusResponse(true, "Menu category deleted successfully"))
    {
      var found := IndexOf(rows, id);
      if found.None? {
        return Err(Internal);
      }
      var k := found.value;
      rows := rows[..k] + rows[k + 1..];
      r := Ok(StatusResponse(true, "Menu category deleted successfully"));
    }
  }
}
