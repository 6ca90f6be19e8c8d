/**
 * The search-field configuration of `config.py`: for each deck and note
 * type (the source calls them deck and model), which field of the note is
 * searched for vocabulary.
 *
 * The stored configuration is a value (`Config`). The settings dialog
 * works on a view model whose per-model entries are objects: a combo box
 * callback overwrites one entry's selected field in place and the whole
 * configuration is then rebuilt from the view model.
 */
module SearchFields {
  import opened Outcomes

  /** The combo-box entry that switches a model off. */
  const Disabled: string := "Disabled"

  // ---------------------------------------------------------------------
  // The stored configuration
  // ---------------------------------------------------------------------

  datatype ConfigModel = ConfigModel(id: string, selectedField: string)
  datatype ConfigDeck = ConfigDeck(id: string, models: seq<ConfigModel>)
  datatype Config = Config(decks: seq<ConfigDeck>)

  /** The field of the first model of `models` whose id is `modelId`. */
  function ModelField(models: seq<ConfigModel>, modelId: string): Option<string>
  {
    if models == [] then None
    else if models[0].id == modelId then Some(models[0].selectedField)
    else ModelField(models[1..], modelId)
  }

  /** The field of the first model with id `modelId` inside the first deck
      with id `deckId` that has one; decks with that id but without such a
      model are passed over. */
  function DecksField(decks: seq<ConfigDeck>, deckId: string, modelId: string): Option<string>
  {
    if decks == [] then None
    else if decks[0].id == deckId && ModelField(decks[0].models, modelId).Some? then ModelField(decks[0].models, modelId)
    else DecksField(decks[1..], deckId, modelId)
  }

  function SelectedField(config: Config, deckId: string, modelId: string): Option<string>
  {
    DecksField(config.decks, deckId, modelId)
  }

  /** Position (i, j) names a model whose deck id and model id both match. */
  ghost predicate Matches(config: Config, deckId: string, modelId: string, i: int, j: int)
  {
    && 0 <= i < |config.decks| && 0 <= j < |config.decks[i].models|
    && config.decks[i].id == deckId && config.decks[i].models[j].id == modelId
  }

  /** Position (i, j) is the first match in list order: decks in order, and
      within a deck its models in order. */
  ghost predicate IsFirstMatch(config: Config, deckId: string, modelId: string, i: int, j: int)
  {
    && Matches(config, deckId, modelId, i, j)
    && (forall i', j' | 0 <= i' < i :: !Matches(config, deckId, modelId, i', j'))
    && (forall j' | 0 <= j' < j :: !Matches(config, deckId, modelId, i, j'))
  }

  /** `selected_field_from_config`: nested search with an early return. */
  method SelectedFieldFromConfig(config: Config, deckId: string, modelId: string) returns (r: Option<string>)
    ensures r == SelectedField(config, deckId, modelId)
  {
    var decks := config.decks;
    var i := 0;
    while i < |decks|
      invariant 0 <= i <= |decks|
      invariant DecksField(decks, deckId, modelId) == DecksField(decks[i..], deckId, modelId)
    {
      var deck := decks[i];
      if deck.id == deckId {
        var j := 0;
        while j < |deck.models|
          invariant 0 <= j <= |deck.models|
          invariant ModelField(deck.models, modelId) == ModelField(deck.models[j..], modelId)
        {
          if deck.models[j].id == modelId {
            return Some(deck.models[j].selectedField);
          }
          assert deck.models[j..][1..] == deck.models[j + 1..];
          j := j + 1;
        }
      }
      assert decks[i..][1..] == decks[i + 1..];
      i := i + 1;
    }
    return None;
  }

  lemma {:induction false} ModelFieldFirst(models: seq<ConfigModel>, modelId: string)
    ensures ModelField(models, modelId).None? <==> forall j | 0 <= j < |models| :: models[j].id != modelId
    ensures forall j | 0 <= j < |models| && models[j].id == modelId && (forall j' | 0 <= j' < j :: models[j'].id != modelId) ::
              ModelField(models, modelId) == Some(models[j].selectedField)
  {
    if models != [] {
      ModelFieldFirst(models[1..], modelId);
    }
  }

  /** `selected_field_from_config` finds nothing exactly when no deck with
      the id holds a model with the id, the empty configuration included. */
  lemma {:induction false} SelectedFieldNone(config: Config, deckId: string, modelId: string)
    ensures SelectedField(config, deckId, modelId).None? <==> forall i, j :: !Matches(config, deckId, modelId, i, j)
    decreases |config.decks|
  {
    if config.decks != [] {
      var first := config.decks[0];
      var rest := Config(config.decks[1..]);
      ModelFieldFirst(first.models, modelId);
      if first.id == deckId && ModelField(first.models, modelId).Some? {
        var j :| 0 <= j < |first.models| && first.models[j].id == modelId;
        assert Matches(config, deckId, modelId, 0, j);
      } else {
        SelectedFieldNone(rest, deckId, modelId);
        forall i, j ensures Matches(config, deckId, modelId, i, j) <==> i > 0 && Matches(rest, deckId, modelId, i - 1, j) {
          if i > 0 && 0 <= i < |config.decks| {
            assert config.decks[i] == rest.decks[i - 1];
          }
        }
        if exists i, j :: Matches(rest, deckId, modelId, i, j) {
          var i, j :| Matches(rest, deckId, modelId, i, j);
          assert Matches(config, deckId, modelId, i + 1, j);
        }
      }
    }
  }

  /** `selected_field_from_config` returns the selected field of the first
      matching (deck, model) pair. */
  lemma {:induction false} SelectedFieldFirstMatch(config: Config, deckId: string, modelId: string, i: int, j: int)
    requires IsFirstMatch(config, deckId, modelId, i, j)
    ensures SelectedField(config, deckId, modelId) == Some(config.decks[i].models[j].selectedField)
    decreases i
  {
    var decks := config.decks;
    ModelFieldFirst(decks[0].models, modelId);
    if i == 0 {
      forall j' | 0 <= j' < j ensures decks[0].models[j'].id != modelId {
        assert !Matches(config, deckId, modelId, 0, j');
      }
    } else {
      assert !(decks[0].id == deckId && ModelField(decks[0].models, modelId).Some?) by {
        if decks[0].id == deckId && ModelField(decks[0].models, modelId).Some? {
          var j' :| 0 <= j' < |decks[0].models| && decks[0].models[j'].id == modelId;
          assert Matches(config, deckId, modelId, 0, j');
        }
      }
      var rest := Config(decks[1..]);
      forall i', j' | 0 <= i' < i - 1 ensures !Matches(rest, deckId, modelId, i', j') {
        assert !Matches(config, deckId, modelId, i' + 1, j');
      }
      var i1 := i - 1;
      forall j' | 0 <= j' < j ensures !Matches(rest, deckId, modelId, i1, j') {
        assert !Matches(config, deckId, modelId, i, j');
      }
      assert Matches(rest, deckId, modelId, i - 1, j);
      SelectedFieldFirstMatch(rest, deckId, modelId, i - 1, j);
    }
  }

  // ---------------------------------------------------------------------
  // The view model of the settings dialog
  // ---------------------------------------------------------------------

  /** One note type of one deck in the settings dialog; its selected field
      is `None` while the model is disabled. */
  class ModelView {
    const name: string
    const id: string
    const fields: seq<string>
    var selectedField: Option<string>

    constructor (name: string, id: string, fields: seq<string>, selectedField: Option<string>)
      ensures this.name == name && this.id == id && this.fields == fields && this.selectedField == selectedField
    {
      this.name := name;
      this.id := id;
      this.fields := fields;
      this.selectedField := selectedField;
    }
  }

  datatype DeckView = DeckView(name: string, id: string, models: seq<ModelView>)
  datatype ConfigView = ConfigView(decks: seq<DeckView>)

  /** Every model entry of the view model. */
  ghost function Entries(decks: seq<DeckView>): set<ModelView>
  {
    set d, m | d in decks && m in d.models :: m
  }

  lemma EntriesCover(decks: seq<DeckView>, i: int)
    requires 0 <= i < |decks|
    ensures forall m | m in decks[i].models :: m in Entries(decks)
    ensures Entries(decks[..i]) <= Entries(decks) && Entries(decks[i + 1..]) <= Entries(decks)
  {
    assert decks[i] in decks;
  }

  /** The stored models of one deck: the enabled entries, in order. */
  function ConfigModels(models: seq<ModelView>): seq<ConfigModel>
    reads models
  {
    if models == [] then []
    else
      var last := models[|models| - 1];
      ConfigModels(models[..|models| - 1]) + if last.selectedField.Some? then [ConfigModel(last.id, last.selectedField.value)] else []
  }

  /** The stored decks: one per deck of the view with an enabled entry, in order. */
  function ConfigDecks(decks: seq<DeckView>): seq<ConfigDeck>
    reads Entries(decks)
  {
    if decks == [] then []
    else
      var last := decks[|decks| - 1];
      EntriesCover(decks, |decks| - 1);
      var models := ConfigModels(last.models);
      ConfigDecks(decks[..|decks| - 1]) + if models != [] then [ConfigDeck(last.id, models)] else []
  }

  function ToConfig(vm: ConfigView): Config
    reads Entries(vm.decks)
  {
    Config(ConfigDecks(vm.decks))
  }

  /** `search_fields_config`: append the enabled models of each deck, and
      the deck itself when any model was kept. */
  method SearchFieldsConfig(vm: ConfigView) returns (config: Config)
    ensures config == ToConfig(vm)
  {
    var decks: seq<ConfigDeck> := [];
    var i := 0;
    while i < |vm.decks|
      invariant 0 <= i <= |vm.decks|
      invariant decks == ConfigDecks(vm.decks[..i])
    {
      var deck := vm.decks[i];
      var models: seq<ConfigModel> := [];
      var j := 0;
      while j < |deck.models|
        invariant 0 <= j <= |deck.models|
        invariant models == ConfigModels(deck.models[..j])
      {
        var model := deck.models[j];
        if model.selectedField.Some? {
          models := models + [ConfigModel(model.id, model.selectedField.value)];
        }
        assert deck.models[..j + 1][..j] == deck.models[..j];
        j := j + 1;
      }
      assert deck.models[..j] == deck.models;
      if models != [] {
        decks := decks + [ConfigDeck(deck.id, models)];
      }
      assert vm.decks[..i + 1][..i] == vm.decks[..i];
      i := i + 1;
    }
    assert vm.decks[..i] == vm.decks;
    return Config(decks);
  }

  /** The field of the first enabled entry with id `modelId`. */
  function ViewModelField(models: seq<ModelView>, modelId: string): Option<string>
    reads models
  {
    if models == [] then None
    else if models[0].id == modelId && models[0].selectedField.Some? then models[0].selectedField
    else ViewModelField(models[1..], modelId)
  }

  /** What the dialog shows for (deck, model): the first deck with the id
      holding an enabled entry with the model id, and that entry's field. */
  function ViewSelectedField(decks: seq<DeckView>, deckId: string, modelId: string): Option<string>
    reads Entries(decks)
  {
    if decks == [] then None
    else
      EntriesCover(decks, 0);
      if decks[0].id == deckId && ViewModelField(decks[0].models, modelId).Some? then ViewModelField(decks[0].models, modelId)
    else ViewSelectedField(decks[1..], deckId, modelId)
  }

  // ---------------------------------------------------------------------
  // Properties of the conversion
  // ---------------------------------------------------------------------

  /** The stored models of two runs of entries are those of each, in order. */
  lemma {:induction false} ConfigModelsConcat(a: seq<ModelView>, b: seq<ModelView>)
    ensures ConfigModels(a + b) == ConfigModels(a) + ConfigModels(b)
  {
    if b != [] {
      var b' := b[..|b| - 1];
      assert (a + b)[..|a + b| - 1] == a + b';
      ConfigModelsConcat(a, b');
    } else {
      assert a + b == a;
    }
  }

  /** An entry is stored exactly when it is enabled; a disabled one leaves no trace. */
  lemma ConfigModelOfEntry(m: ModelView)
    ensures ConfigModels([m]) == if m.selectedField.Some? then [ConfigModel(m.id, m.selectedField.value)] else []
  {
    assert [m][..0] == [];
  }

  /** Every stored model comes from an enabled entry with the same id and
      field, and every enabled entry is stored. */
  lemma {:induction false} ConfigModelsMembers(models: seq<ModelView>)
    ensures forall c | c in ConfigModels(models) ::
              exists j | 0 <= j < |models| :: models[j].id == c.id && models[j].selectedField == Some(c.selectedField)
    ensures forall j | 0 <= j < |models| && models[j].selectedField.Some? ::
              ConfigModel(models[j].id, models[j].selectedField.value) in ConfigModels(models)
  {
    if models != [] {
      var rest := models[..|models| - 1];
      ConfigModelsMembers(rest);
      forall c | c in ConfigModels(models)
        ensures exists j | 0 <= j < |models| :: models[j].id == c.id && models[j].selectedField == Some(c.selectedField)
      {
        if c in ConfigModels(rest) {
          var j :| 0 <= j < |rest| && rest[j].id == c.id && rest[j].selectedField == Some(c.selectedField);
          assert models[j] == rest[j];
        } else {
          assert models[|models| - 1].id == c.id;
        }
      }
      forall j | 0 <= j < |models| - 1 && models[j].selectedField.Some?
        ensures ConfigModel(models[j].id, models[j].selectedField.value) in ConfigModels(models)
      {
        assert rest[j] == models[j];
      }
    }
  }

  /** The stored decks of two runs of decks are those of each, in order. */
  lemma {:induction false} ConfigDecksConcat(a: seq<DeckView>, b: seq<DeckView>)
    ensures ConfigDecks(a + b) == ConfigDecks(a) + ConfigDecks(b)
  {
    if b != [] {
      var b' := b[..|b| - 1];
      assert (a + b)[..|a + b| - 1] == a + b';
      ConfigDecksConcat(a, b');
    } else {
      assert a + b == a;
    }
  }

  /** A deck is stored, with its enabled entries, exactly when it has one. */
  lemma ConfigDeckOfView(d: DeckView)
    ensures ConfigDecks([d]) == if ConfigModels(d.models) != [] then [ConfigDeck(d.id, ConfigModels(d.models))] else []
  {
    assert [d][..0] == [];
  }

  /** No stored deck is empty, and each comes from a deck of the view with
      the same id and that deck's enabled entries. */
  lemma {:induction false} ConfigDecksShape(decks: seq<DeckView>)
    ensures forall c | c in ConfigDecks(decks) :: c.models != []
    ensures forall c | c in ConfigDecks(decks) ::
              exists i | 0 <= i < |decks| :: decks[i].id == c.id && ConfigModels(decks[i].models) == c.models
    ensures forall i | 0 <= i < |decks| && ConfigModels(decks[i].models) != [] ::
              ConfigDeck(decks[i].id, ConfigModels(decks[i].models)) in ConfigDecks(decks)
  {
    if decks != [] {
      var rest := decks[..|decks| - 1];
      ConfigDecksShape(rest);
      forall c | c in ConfigDecks(decks)
        ensures exists i | 0 <= i < |decks| :: decks[i].id == c.id && ConfigModels(decks[i].models) == c.models
      {
        if c in ConfigDecks(rest) {
          var i :| 0 <= i < |rest| && rest[i].id == c.id && ConfigModels(rest[i].models) == c.models;
          assert decks[i] == rest[i];
        } else {
          assert decks[|decks| - 1].id == c.id;
        }
      }
      forall i | 0 <= i < |decks| - 1 && ConfigModels(decks[i].models) != []
        ensures ConfigDeck(decks[i].id, ConfigModels(decks[i].models)) in ConfigDecks(decks)
      {
        assert rest[i] == decks[i];
      }
    }
  }

  /** Looking a model up among the stored models of a deck finds what the
      view shows for it. */
  lemma {:induction false} ModelFieldOfConfig(models: seq<ModelView>, modelId: string)
    ensures ModelField(ConfigModels(models), modelId) == ViewModelField(models, modelId)
  {
    if models != [] {
      var head, tail := models[0], models[1..];
      assert models == [head] + tail;
      ConfigModelsConcat([head], tail);
      ConfigModelOfEntry(head);
      ModelFieldOfConfig(tail, modelId);
      if head.selectedField.Some? {
        var stored := ConfigModels(models);
        assert stored == [ConfigModel(head.id, head.selectedField.value)] + ConfigModels(tail);
        assert stored[1..] == ConfigModels(tail);
        if head.id == modelId {
          assert ModelField(stored, modelId) == head.selectedField;
          assert ViewModelField(models, modelId) == head.selectedField;
        } else {
          assert ModelField(stored, modelId) == ModelField(ConfigModels(tail), modelId);
          assert ViewModelField(models, modelId) == ViewModelField(tail, modelId);
        }
      } else {
        assert ConfigModels(models) == [] + ConfigModels(tail);
        assert ConfigModels(models) == ConfigModels(tail);
        assert ViewModelField(models, modelId) == ViewModelField(tail, modelId);
      }
    }
  }

  /** Round trip: looking (deck, model) up in the configuration built from
      the view gives the field the view shows for it, or `None` when it is
      disabled or absent. */
  lemma {:induction false} SelectedFieldOfConfig(vm: ConfigView, deckId: string, modelId: string)
    ensures SelectedField(ToConfig(vm), deckId, modelId) == ViewSelectedField(vm.decks, deckId, modelId)
    decreases |vm.decks|
  {
    var decks := vm.decks;
    if decks != [] {
      var head, tail := decks[0], decks[1..];
      assert decks == [head] + tail;
      assert Entries(tail) <= Entries(decks);
      ConfigDecksConcat([head], tail);
      ConfigDeckOfView(head);
      ModelFieldOfConfig(head.models, modelId);
      SelectedFieldOfConfig(ConfigView(tail), deckId, modelId);
      var models := ConfigModels(head.models);
      if models != [] {
        assert ConfigDecks(decks) == [ConfigDeck(head.id, models)] + ConfigDecks(tail);
        assert ConfigDecks(decks)[1..] == ConfigDecks(tail);
      } else {
        assert ConfigDecks(decks) == [] + ConfigDecks(tail);
        assert ConfigDecks(decks) == ConfigDecks(tail);
        assert ViewModelField(head.models, modelId) == None;
        assert ViewSelectedField(decks, deckId, modelId) == ViewSelectedField(tail, deckId, modelId);
      }
    }
  }

  /** Deck ids are distinct, and model ids are distinct within each deck. */
  ghost predicate UniqueIds(vm: ConfigView)
  {
    && (forall a, b | 0 <= a < b < |vm.decks| :: vm.decks[a].id != vm.decks[b].id)
    && (forall i, a, b | 0 <= i < |vm.decks| && 0 <= a < b < |vm.decks[i].models| ::
          vm.decks[i].models[a].id != vm.decks[i].models[b].id)
  }

  lemma {:induction false} ViewModelFieldUnique(models: seq<ModelView>, j: int)
    requires 0 <= j < |models|
    requires forall a, b | 0 <= a < b < |models| :: models[a].id != models[b].id
    ensures ViewModelField(models, models[j].id) == models[j].selectedField
  {
    if j > 0 {
      assert models[0].id != models[j].id;
      assert models[1..][j - 1] == models[j];
      ViewModelFieldUnique(models[1..], j - 1);
    } else {
      ViewModelFieldAbsent(models[1..], models[0].id);
    }
  }

  lemma {:induction false} ViewModelFieldAbsent(models: seq<ModelView>, modelId: string)
    requires forall j | 0 <= j < |models| :: models[j].id != modelId
    ensures ViewModelField(models, modelId) == None
  {
    if models != [] {
      ViewModelFieldAbsent(models[1..], modelId);
    }
  }

  lemma {:induction false} ViewSelectedFieldUnique(decks: seq<DeckView>, i: int, j: int)
    requires UniqueIds(ConfigView(decks))
    requires 0 <= i < |decks| && 0 <= j < |decks[i].models|
    ensures ViewSelectedField(decks, decks[i].id, decks[i].models[j].id) == decks[i].models[j].selectedField
  {
    var deckId, modelId := decks[i].id, decks[i].models[j].id;
    if i == 0 {
      ViewModelFieldUnique(decks[0].models, j);
      if decks[0].models[j].selectedField.None? {
        ViewSelectedFieldAbsent(decks[1..], deckId, modelId);
      }
    } else {
      assert decks[0].id != deckId;
      ViewSelectedFieldUnique(decks[1..], i - 1, j);
    }
  }

  lemma {:induction false} ViewSelectedFieldAbsent(decks: seq<DeckView>, deckId: string, modelId: string)
    requires forall i | 0 <= i < |decks| :: decks[i].id != deckId
    ensures ViewSelectedField(decks, deckId, modelId) == None
  {
    if decks != [] {
      ViewSelectedFieldAbsent(decks[1..], deckId, modelId);
    }
  }

  /** With distinct ids, the configuration built from the view stores, for
      each entry, exactly that entry's selected field. */
  lemma SelectedFieldOfEntry(vm: ConfigView, i: int, j: int)
    requires UniqueIds(vm)
    requires 0 <= i < |vm.decks| && 0 <= j < |vm.decks[i].models|
    ensures SelectedField(ToConfig(vm), vm.decks[i].id, vm.decks[i].models[j].id) == vm.decks[i].models[j].selectedField
  {
    SelectedFieldOfConfig(vm, vm.decks[i].id, vm.decks[i].models[j].id);
    ViewSelectedFieldUnique(vm.decks, i, j);
  }

  // ---------------------------------------------------------------------
  // Changing a selection
  // ---------------------------------------------------------------------

  /** The stored choice for a combo-box entry: `None` for "Disabled", the
      field name otherwise. */
  function FieldChoice(selected: string): (r: Option<string>)
    ensures r.None? <==> selected == Disabled
    ensures r.Some? ==> r.value == selected
  {
    if selected == Disabled then None else Some(selected)
  }

  /** `selected_field_changed` without the save: overwrite the entry's
      selection and rebuild the configuration from the view. */
  method SelectedFieldChanged(model: ModelView, vm: ConfigView, selected: string) returns (config: Config)
    modifies model
    ensures model.selectedField == FieldChoice(selected)
    ensures config == ToConfig(vm)
    ensures forall i, j | UniqueIds(vm) && 0 <= i < |vm.decks| && 0 <= j < |vm.decks[i].models| && vm.decks[i].models[j] == model ::
              SelectedField(config, vm.decks[i].id, model.id) == FieldChoice(selected)
  {
    model.selectedField := FieldChoice(selected);
    config := SearchFieldsConfig(vm);
    forall i, j | UniqueIds(vm) && 0 <= i < |vm.decks| && 0 <= j < |vm.decks[i].models| && vm.decks[i].models[j] == model
      ensures SelectedField(config, vm.decks[i].id, model.id) == FieldChoice(selected)
    {
      SelectedFieldOfEntry(vm, i, j);
    }
  }
}
