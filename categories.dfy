/**
 * The five reference dimensions of a feature record.  The source names each one
 * twice: as a field of an `overall` document (`system_name`, `module`, ...) and as
 * the collection that holds its lookup rows (the field name plus "s").
 */
module Categories {

  import opened Wrappers
  import opened Text

  datatype Category = SystemName | Module | Feature | Client | Source

  /** The order in which the source walks the categories (`$fields`, `$referenceCollections`). */
  const AllCategories: seq<Category> := [SystemName, Module, Feature, Client, Source]

  lemma AllCategoriesComplete(c: Category)
    ensures c in AllCategories
  {
  }

  /** Where a category stands in `AllCategories`. */
  function Position(c: Category): (k: nat)
    ensures k < |AllCategories| && AllCategories[k] == c
  {
    match c
    case SystemName => 0
    case Module => 1
    case Feature => 2
    case Client => 3
    case Source => 4
  }

  lemma PositionOfEntry(k: nat)
    requires k < |AllCategories|
    ensures Position(AllCategories[k]) == k
  {
  }

  /** The document field that holds the category's name. */
  function FieldName(c: Category): string {
    match c
    case SystemName => "system_name"
    case Module => "module"
    case Feature => "feature"
    case Client => "client"
    case Source => "source"
  }

  /** The collection holding the category's lookup rows: the field name plus "s". */
  function CollectionName(c: Category): (r: string)
    ensures r == FieldName(c) + "s"
  {
    match c
    case SystemName => "system_names"
    case Module => "modules"
    case Feature => "features"
    case Client => "clients"
    case Source => "sources"
  }

  /** The category whose field has the given name, if any. */
  function CategoryOfField(field: string): (r: Option<Category>)
    ensures r.Some? ==> FieldName(r.value) == field
    ensures r.None? ==> forall c :: FieldName(c) != field
  {
    if field == "system_name" then Some(SystemName)
    else if field == "module" then Some(Module)
    else if field == "feature" then Some(Feature)
    else if field == "client" then Some(Client)
    else if field == "source" then Some(Source)
    else None
  }

  /**
   * `rtrim($collectionName, 's')` turns each collection name back into its field
   * name (no field name ends in "s"), so the two spellings never drift apart.
   */
  lemma FieldCollectionRoundTrip(c: Category)
    ensures CategoryOfField(FieldName(c)) == Some(c)
    ensures StripRight(CollectionName(c), LetterS) == FieldName(c)
  {
    var f := FieldName(c);
    assert f[|f| - 1] != 's';
    StripRightOne(f, 's', LetterS);
  }

  lemma CollectionNameInjective(c: Category, d: Category)
    ensures CollectionName(c) == CollectionName(d) <==> c == d
  {
    FieldCollectionRoundTrip(c);
    FieldCollectionRoundTrip(d);
  }

  /** One value per category, addressed by category. */
  datatype PerCategory<T> = PerCategory(systemName: T, moduleName: T, featureName: T, clientName: T, sourceName: T) {

    function Get(c: Category): T {
      match c
      case SystemName => systemName
      case Module => moduleName
      case Feature => featureName
      case Client => clientName
      case Source => sourceName
    }

    function Set(c: Category, v: T): (r: PerCategory<T>)
      ensures r.Get(c) == v
      ensures forall d :: d != c ==> r.Get(d) == Get(d)
    {
      match c
      case SystemName => this.(systemName := v)
      case Module => this.(moduleName := v)
      case Feature => this.(featureName := v)
      case Client => this.(clientName := v)
      case Source => this.(sourceName := v)
    }

    /** Writing back what was read changes nothing. */
    lemma SetGet(c: Category)
      ensures Set(c, Get(c)) == this
    {
    }
  }

  function Uniform<T>(v: T): (r: PerCategory<T>)
    ensures forall c :: r.Get(c) == v
  {
    PerCategory(v, v, v, v, v)
  }
}
