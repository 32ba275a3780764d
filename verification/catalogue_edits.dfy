/** The write side of the catalogue service: creating, updating and deleting
    categories and services, with their icons kept in the file store. */
module CatalogueEdits {
  import opened Wrappers
  import opened Ids
  import Text
  import Seqs
  import Files
  import opened Catalogue

  /** The largest icon upload accepted, in bytes (5 MB). */
  const MaxIconSize: nat := 5 * 1024 * 1024

  const CategoryIconDirectory: string := "categories"
  const ServiceIconDirectory: string := "services"

  /** An upload over the icon limit; exactly 5 MB is still accepted. */
  predicate Oversized(file: Option<Files.Upload>) {
    Files.IsPresent(file) && file.value.size > MaxIconSize
  }

  /** The icon of a new row: a present upload is stored and its URL used, after the
      size check; otherwise the trimmed icon URL if it has text; otherwise none. */
  function NewIcon(files: set<string>, file: Option<Files.Upload>, iconUrl: Option<string>, directory: string, uuid: string)
    : (r: Result<(set<string>, Option<string>), CatalogueError>)
    ensures r.Failure? <==> Oversized(file)
    ensures r.Failure? ==> r.error == IconTooLarge
    ensures r.Success? && Files.IsPresent(file) ==>
      var path := Files.StoredPath(directory, uuid, file.value.originalName);
      r.value == (files + {path}, Files.GetFileUrl(Some(path)))
    ensures r.Success? && !Files.IsPresent(file) ==> r.value == (files, Text.GivenText(iconUrl))
  {
    if Files.IsPresent(file) then
      if file.value.size > MaxIconSize then Failure(IconTooLarge)
      else
        var (files', path) := Files.StoreFile(files, file, directory, uuid).value;
        Success((files', Files.GetFileUrl(Some(path))))
    else Success((files, Text.GivenText(iconUrl)))
  }

  /** An uploaded icon is served: its URL leads to a file now in the store. */
  lemma UploadedIconServed(files: set<string>, file: Option<Files.Upload>, iconUrl: Option<string>, directory: string, uuid: string)
    requires Files.IsPresent(file) && !Oversized(file)
    ensures var (files', icon) := NewIcon(files, file, iconUrl, directory, uuid).value;
            && Files.ExtractPathFromUrl(icon).Some?
            && Files.ExtractPathFromUrl(icon).value in files'
            && files <= files'
  {
    var path := Files.StoredPath(directory, uuid, file.value.originalName);
    Files.StoredPathNonEmpty(directory, uuid, file.value.originalName);
    Files.PathUrlRoundTrip(path);
  }

  /** The file behind an old icon, deleted: nothing when there is no icon; when
      `servedOnly` holds, nothing unless the icon is a served URL. */
  function DropOldIcon(files: set<string>, icon: Option<string>, servedOnly: bool): (r: set<string>)
    ensures r <= files
    ensures icon.None? || icon.value == "" || (servedOnly && !Text.StartsWith(icon.value, Files.FilesPrefix)) ==> r == files
    ensures icon.Some? && icon.value != "" && (!servedOnly || Text.StartsWith(icon.value, Files.FilesPrefix)) ==>
      r == files - {Files.ExtractPathFromUrl(icon).value}
  {
    if icon.Some? && (!servedOnly || Text.StartsWith(icon.value, Files.FilesPrefix)) then
      Files.DeleteByUrl(files, icon)
    else files
  }

  /** The icon of an updated row: a present upload replaces it (after the size check,
      the old file deleted first); otherwise a given icon URL replaces it, blank
      meaning none, and a served old icon's file is deleted; otherwise it stays. */
  function UpdatedIcon(files: set<string>, prev: Option<string>, file: Option<Files.Upload>, iconUrl: Option<string>,
                       directory: string, uuid: string, servedOnlyOnUpload: bool)
    : (r: Result<(set<string>, Option<string>), CatalogueError>)
    ensures r.Failure? <==> Oversized(file)
    ensures r.Failure? ==> r.error == IconTooLarge
    ensures r.Success? && Files.IsPresent(file) ==>
      var path := Files.StoredPath(directory, uuid, file.value.originalName);
      r.value == (DropOldIcon(files, prev, servedOnlyOnUpload) + {path}, Files.GetFileUrl(Some(path)))
    ensures r.Success? && !Files.IsPresent(file) && iconUrl.Some? ==>
      r.value == (DropOldIcon(files, prev, true), Text.GivenText(iconUrl))
    ensures !Files.IsPresent(file) && iconUrl.None? ==> r == Success((files, prev))
  {
    if Files.IsPresent(file) then
      if file.value.size > MaxIconSize then Failure(IconTooLarge)
      else
        var (files', path) := Files.StoreFile(DropOldIcon(files, prev, servedOnlyOnUpload), file, directory, uuid).value;
        Success((files', Files.GetFileUrl(Some(path))))
    else if iconUrl.Some? then Success((DropOldIcon(files, prev, true), Text.GivenText(iconUrl)))
    else Success((files, prev))
  }

  /** Switching a served icon to a URL deletes the old file, and the new value is the
      URL's text or nothing. */
  lemma SwitchToUrlDropsServedIcon(files: set<string>, path: string, url: string, directory: string, uuid: string, servedOnly: bool)
    requires path != ""
    ensures var (files', icon) := UpdatedIcon(files, Files.GetFileUrl(Some(path)), None, Some(url), directory, uuid, servedOnly).value;
            && files' == files - {path}
            && (icon.None? <==> Text.IsBlank(url))
  {
    Files.PathUrlRoundTrip(path);
  }

  // Categories.

  /** The category form: every field may be null. */
  datatype CategoryForm = CategoryForm(
    name: Option<string>,
    iconFile: Option<Files.Upload>,
    iconUrl: Option<string>,
    displayOrder: Option<int>,
    isActive: Option<bool>)

  /** Some category other than `except` has `name`, ignoring case. */
  predicate NameTaken(categories: seq<Category>, name: string, except: Option<int>) {
    exists k :: 0 <= k < |categories| && (except.None? || categories[k].id != except.value)
                && Text.EqualsIgnoreCase(categories[k].name, name)
  }

  /** `createCategory`: the name is required and must not match any category's name
      ignoring case; the icon may not be oversized. The row gets a fresh id, the
      trimmed name, display order 0 and active unless given. */
  function CreateCategory(t: Tables, files: set<string>, form: CategoryForm, uuid: string)
    : (r: Result<(Tables, set<string>, CategoryResponse), CatalogueError>)
    ensures r.Failure? ==> r.error == NameRequired || r.error == CategoryNameExists(form.name.GetOr("")) || r.error == IconTooLarge
    ensures r == Failure(NameRequired) <==> Text.GivenText(form.name).None?
    ensures r.Failure? && r.error.CategoryNameExists? <==>
      Text.GivenText(form.name).Some? && NameTaken(t.categories, Text.GivenText(form.name).value, None)
    ensures r == Failure(IconTooLarge) <==>
      Text.GivenText(form.name).Some? && !NameTaken(t.categories, Text.GivenText(form.name).value, None) && Oversized(form.iconFile)
    ensures r.Success? ==>
      var (t', files', response) := r.value;
      var n := |t.categories|;
      && |t'.categories| == n + 1 && t'.categories[..n] == t.categories
      && t'.services == t.services && t'.offers == t.offers
      && var c := t'.categories[n];
      && !HasCategory(t.categories, c.id)
      && c.name == Text.GivenText(form.name).value
      && c.displayOrder == form.displayOrder.GetOr(0)
      && c.isActive == form.isActive.GetOr(true)
      && NewIcon(files, form.iconFile, form.iconUrl, CategoryIconDirectory, uuid) == Success((files', c.icon))
      && response == FromCategory(c)
  {
    match Text.GivenText(form.name)
    case None => Failure(NameRequired)
    case Some(name) =>
      if NameTaken(t.categories, name, None) then Failure(CategoryNameExists(form.name.value))
      else
        match NewIcon(files, form.iconFile, form.iconUrl, CategoryIconDirectory, uuid)
        case Failure(e) => Failure(e)
        case Success((files', icon)) =>
          var c := Category(Fresh(t.categories, (x: Category) => x.id), name, icon,
                            form.displayOrder.GetOr(0), form.isActive.GetOr(true));
          assert (t.categories + [c])[..|t.categories|] == t.categories;
          Success((Tables(t.categories + [c], t.services, t.offers), files', FromCategory(c)))
  }

  /** Appending a category keeps every category lookup that succeeded before. */
  lemma AppendKeepsCategories(categories: seq<Category>, c: Category)
    ensures forall id :: HasCategory(categories, id) ==> HasCategory(categories + [c], id)
    ensures HasCategory(categories + [c], c.id)
  {
    assert (categories + [c])[|categories|] == c;
    forall id | HasCategory(categories, id) ensures HasCategory(categories + [c], id) {
      var k :| 0 <= k < |categories| && categories[k].id == id;
      assert (categories + [c])[k] == categories[k];
    }
  }

  /** Creating a category keeps the catalogue's constraints: ids unique, names
      distinct ignoring case, services attached to existing categories. */
  lemma CreateCategoryPreservesWf(t: Tables, files: set<string>, form: CategoryForm, uuid: string)
    requires Wf(t)
    requires CreateCategory(t, files, form, uuid).Success?
    ensures Wf(CreateCategory(t, files, form, uuid).value.0)
  {
    var t' := CreateCategory(t, files, form, uuid).value.0;
    var n := |t.categories|;
    var c := t'.categories[n];
    assert t'.categories == t.categories + [c];
    AppendKeepsCategories(t.categories, c);
  }

  /** A created category reads back by its id as the response the creation returned. */
  lemma CreatedCategoryReadable(t: Tables, files: set<string>, form: CategoryForm, uuid: string)
    requires Wf(t)
    requires CreateCategory(t, files, form, uuid).Success?
    ensures var (t', _, response) := CreateCategory(t, files, form, uuid).value;
            GetCategoryById(t', response.id) == Success(response)
  {
    CreateCategoryPreservesWf(t, files, form, uuid);
    var t' := CreateCategory(t, files, form, uuid).value.0;
    GetCategoryByIdFinds(t', t'.categories[|t.categories|]);
  }

  /** Once a name is in use, creating another category named the same up to case
      fails. */
  lemma CreateCategoryTwice(t: Tables, files: set<string>, form: CategoryForm, uuid: string, form2: CategoryForm, uuid2: string)
    requires CreateCategory(t, files, form, uuid).Success?
    requires Text.GivenText(form2.name).Some?
    requires Text.EqualsIgnoreCase(Text.GivenText(form2.name).value, Text.GivenText(form.name).value)
    ensures var (t', files', _) := CreateCategory(t, files, form, uuid).value;
            CreateCategory(t', files', form2, uuid2) == Failure(CategoryNameExists(form2.name.value))
  {
    var t' := CreateCategory(t, files, form, uuid).value.0;
    var n := |t.categories|;
    assert Text.EqualsIgnoreCase(t'.categories[n].name, Text.GivenText(form2.name).value);
  }

  /** `updateCategory`: an unknown id fails first; a given name must not match another
      category's name ignoring case; the icon may not be oversized. Null fields leave
      their column as it was. */
  function UpdateCategory(t: Tables, files: set<string>, id: int, form: CategoryForm, uuid: string)
    : (r: Result<(Tables, set<string>, CategoryResponse), CatalogueError>)
    ensures r.Failure? ==> r.error == CategoryNotFound(id) || r.error == CategoryNameExists(form.name.GetOr("")) || r.error == IconTooLarge
    ensures r == Failure(CategoryNotFound(id)) <==> !HasCategory(t.categories, id)
    ensures r.Failure? && r.error.CategoryNameExists? <==>
      HasCategory(t.categories, id) && Text.GivenText(form.name).Some? && NameTaken(t.categories, Text.GivenText(form.name).value, Some(id))
    ensures r == Failure(IconTooLarge) <==>
      && HasCategory(t.categories, id)
      && !(Text.GivenText(form.name).Some? && NameTaken(t.categories, Text.GivenText(form.name).value, Some(id)))
      && Oversized(form.iconFile)
    ensures r.Success? ==>
      var (t', files', response) := r.value;
      var k := CategoryIndex(t.categories, id).value;
      var prev := t.categories[k];
      && |t'.categories| == |t.categories|
      && var c := t'.categories[k];
      && t'.categories == t.categories[k := c]
      && t'.services == t.services && t'.offers == t.offers
      && c.id == prev.id
      && c.name == Text.GivenText(form.name).GetOr(prev.name)
      && c.displayOrder == form.displayOrder.GetOr(prev.displayOrder)
      && c.isActive == form.isActive.GetOr(prev.isActive)
      && UpdatedIcon(files, prev.icon, form.iconFile, form.iconUrl, CategoryIconDirectory, uuid, false) == Success((files', c.icon))
      && response == FromCategory(c)
  {
    match CategoryIndex(t.categories, id)
    case None => Failure(CategoryNotFound(id))
    case Some(k) =>
      var prev := t.categories[k];
      var rename := Text.GivenText(form.name);
      if rename.Some? && NameTaken(t.categories, rename.value, Some(id)) then
        Failure(CategoryNameExists(form.name.value))
      else
        match UpdatedIcon(files, prev.icon, form.iconFile, form.iconUrl, CategoryIconDirectory, uuid, false)
        case Failure(e) => Failure(e)
        case Success((files', icon)) =>
          var c := Category(prev.id, rename.GetOr(prev.name), icon,
                            form.displayOrder.GetOr(prev.displayOrder), form.isActive.GetOr(prev.isActive));
          Success((Tables(t.categories[k := c], t.services, t.offers), files', FromCategory(c)))
  }

  /** Replacing a category by one with the same id keeps every category lookup. */
  lemma ReplaceKeepsCategories(categories: seq<Category>, k: nat, c: Category)
    requires k < |categories| && c.id == categories[k].id
    ensures forall id :: HasCategory(categories[k := c], id) <==> HasCategory(categories, id)
  {
    forall id ensures HasCategory(categories[k := c], id) <==> HasCategory(categories, id) {
      if HasCategory(categories, id) {
        var j :| 0 <= j < |categories| && categories[j].id == id;
        assert categories[k := c][j].id == id;
      }
      if HasCategory(categories[k := c], id) {
        var j :| 0 <= j < |categories| && categories[k := c][j].id == id;
        assert categories[j].id == id;
      }
    }
  }

  /** Updating a category keeps the catalogue's constraints. */
  lemma UpdateCategoryPreservesWf(t: Tables, files: set<string>, id: int, form: CategoryForm, uuid: string)
    requires Wf(t)
    requires UpdateCategory(t, files, id, form, uuid).Success?
    ensures Wf(UpdateCategory(t, files, id, form, uuid).value.0)
  {
    var t' := UpdateCategory(t, files, id, form, uuid).value.0;
    var k := CategoryIndex(t.categories, id).value;
    var c := t'.categories[k];
    ReplaceKeepsCategories(t.categories, k, c);
    forall i, j | 0 <= i < j < |t'.categories|
      ensures !Text.EqualsIgnoreCase(t'.categories[i].name, t'.categories[j].name)
    {
      if i == k || j == k {
        var other := if i == k then j else i;
        assert t.categories[other].id != id;
        if Text.GivenText(form.name).Some? {
          assert !Text.EqualsIgnoreCase(t.categories[other].name, c.name);
        } else {
          assert c.name == t.categories[k].name;
        }
      }
    }
  }

  /** An updated category reads back by its id as the response the update returned. */
  lemma UpdatedCategoryReadable(t: Tables, files: set<string>, id: int, form: CategoryForm, uuid: string)
    requires Wf(t)
    requires UpdateCategory(t, files, id, form, uuid).Success?
    ensures var (t', _, response) := UpdateCategory(t, files, id, form, uuid).value;
            GetCategoryById(t', id) == Success(response)
  {
    UpdateCategoryPreservesWf(t, files, id, form, uuid);
    var t' := UpdateCategory(t, files, id, form, uuid).value.0;
    var k := CategoryIndex(t.categories, id).value;
    GetCategoryByIdFinds(t', t'.categories[k]);
  }

  /** A form with every field null changes nothing. */
  lemma EmptyCategoryFormChangesNothing(t: Tables, files: set<string>, id: int, uuid: string)
    requires HasCategory(t.categories, id)
    ensures var r := UpdateCategory(t, files, id, CategoryForm(None, None, None, None, None), uuid);
            r.Success? && r.value.0 == t && r.value.1 == files
  {
    var k := CategoryIndex(t.categories, id).value;
    assert t.categories[k := t.categories[k]] == t.categories;
  }

  /** The uniqueness check skips the category itself: renaming a category to its own
      name, in any case, is never refused. */
  lemma RenameToOwnNameAllowed(t: Tables, files: set<string>, id: int, form: CategoryForm, uuid: string)
    requires UniqueCategoryIds(t.categories) && DistinctCategoryNames(t.categories)
    requires HasCategory(t.categories, id) && Text.GivenText(form.name).Some?
    requires Text.EqualsIgnoreCase(Text.GivenText(form.name).value, t.categories[CategoryIndex(t.categories, id).value].name)
    ensures var r := UpdateCategory(t, files, id, form, uuid);
            !(r.Failure? && r.error.CategoryNameExists?)
  {
  }

  /** `deleteCategory`: an unknown id fails first; a category with at least one active
      service cannot be deleted, and the message counts them; otherwise its served
      icon file and its row are deleted. */
  function DeleteCategory(t: Tables, files: set<string>, id: int): (r: Result<(Tables, set<string>), CatalogueError>)
    ensures r.Failure? ==> r.error == CategoryNotFound(id) || r.error.CategoryInUse?
    ensures r == Failure(CategoryNotFound(id)) <==> !HasCategory(t.categories, id)
    ensures r.Failure? && r.error.CategoryInUse? <==>
      HasCategory(t.categories, id) && exists s :: s in t.services && s.categoryId == id && s.isActive
    ensures r.Failure? && r.error.CategoryInUse? ==> r.error.services == |ActiveServicesOf(t.services, id)|
    ensures r.Success? ==>
      var (t', files') := r.value;
      && t'.categories == Seqs.Filter(t.categories, (c: Category) => c.id != id)
      && t'.services == t.services && t'.offers == t.offers
      && files' == DropOldIcon(files, t.categories[CategoryIndex(t.categories, id).value].icon, true)
  {
    match CategoryIndex(t.categories, id)
    case None => Failure(CategoryNotFound(id))
    case Some(k) =>
      var inUse := Seqs.Count(t.services, (s: Service) => s.categoryId == id && s.isActive);
      if inUse > 0 then
        var j :| 0 <= j < |t.services| && t.services[j].categoryId == id && t.services[j].isActive;
        assert t.services[j] in t.services;
        Failure(CategoryInUse(inUse))
      else
        Success((Tables(Seqs.Filter(t.categories, (c: Category) => c.id != id), t.services, t.offers),
                 DropOldIcon(files, t.categories[k].icon, true)))
  }

  /** After deleting a category no category has its id, and every other category is
      still there. */
  lemma DeleteCategoryRemovesOnlyIt(t: Tables, files: set<string>, id: int, c: Category)
    requires DeleteCategory(t, files, id).Success?
    ensures var t' := DeleteCategory(t, files, id).value.0;
            && !HasCategory(t'.categories, id)
            && (c in t'.categories <==> c in t.categories && c.id != id)
  {
    var t' := DeleteCategory(t, files, id).value.0;
    Seqs.FilterMembership(t.categories, (x: Category) => x.id != id, c);
  }

  /** Deleting a category keeps ids unique and names distinct, and every active
      service still has its category (only inactive ones can lose it). */
  lemma DeleteCategoryKeepsConstraints(t: Tables, files: set<string>, id: int)
    requires Wf(t)
    requires DeleteCategory(t, files, id).Success?
    ensures var t' := DeleteCategory(t, files, id).value.0;
            && UniqueCategoryIds(t'.categories) && DistinctCategoryNames(t'.categories)
            && UniqueServiceIds(t'.services) && UniqueCodes(t'.services)
            && forall k :: 0 <= k < |t'.services| && t'.services[k].isActive ==>
                 HasCategory(t'.categories, t'.services[k].categoryId)
  {
    var t' := DeleteCategory(t, files, id).value.0;
    var keep := (c: Category) => c.id != id;
    Seqs.FilterPairwise(t.categories, keep, (a: Category, b: Category) => a.id != b.id);
    Seqs.FilterPairwise(t.categories, keep, (a: Category, b: Category) => !Text.EqualsIgnoreCase(a.name, b.name));
    forall k | 0 <= k < |t'.services| && t'.services[k].isActive
      ensures HasCategory(t'.categories, t'.services[k].categoryId)
    {
      ActiveServiceKeepsCategory(t, files, id, k);
    }
  }

  /** An active service's category survives a permitted delete. */
  lemma ActiveServiceKeepsCategory(t: Tables, files: set<string>, id: int, k: nat)
    requires ServicesCategorized(t)
    requires DeleteCategory(t, files, id).Success?
    requires k < |t.services| && t.services[k].isActive
    ensures HasCategory(DeleteCategory(t, files, id).value.0.categories, t.services[k].categoryId)
  {
    var t' := DeleteCategory(t, files, id).value.0;
    var s := t.services[k];
    assert s in t.services;
    var j :| 0 <= j < |t.categories| && t.categories[j].id == s.categoryId;
    var c := t.categories[j];
    DeleteCategoryRemovesOnlyIt(t, files, id, c);
    var m :| 0 <= m < |t'.categories| && t'.categories[m] == c;
  }

  /** Inactive services never block deleting their category. */
  lemma InactiveServicesDoNotBlock(t: Tables, files: set<string>, id: int)
    requires HasCategory(t.categories, id)
    requires forall s :: s in t.services && s.categoryId == id ==> !s.isActive
    ensures DeleteCategory(t, files, id).Success?
  {
  }

  // Services.

  /** The service form: every field may be null. */
  datatype ServiceForm = ServiceForm(
    code: Option<string>,
    name: Option<string>,
    shortDescription: Option<string>,
    iconFile: Option<Files.Upload>,
    iconUrl: Option<string>,
    categoryId: Option<int>,
    isActive: Option<bool>)

  /** Some service other than `except` has exactly this code. With codes unique, this
      is `findByCode(code)` finding a row (that is not `except`). */
  predicate CodeTaken(services: seq<Service>, code: string, except: Option<int>) {
    exists k :: 0 <= k < |services| && services[k].code == code && (except.None? || services[k].id != except.value)
  }

  /** The short description at creation: trimmed when given (a blank one is kept as
      the empty text), null otherwise. */
  function TrimmedOrNull(s: Option<string>): (r: Option<string>)
    ensures r.Some? <==> s.Some?
    ensures r.Some? ==> r.value == Text.Trim(s.value)
  {
    match s
    case None => None
    case Some(x) => Some(Text.Trim(x))
  }

  /** The validation order of `createService`, up to the icon: code, name, category
      id, code uniqueness, category existence. */
  function CreateServiceCheck(t: Tables, form: ServiceForm): (r: Option<CatalogueError>)
    ensures r == Some(CodeRequired) <==> Text.GivenText(form.code).None?
    ensures r == Some(NameRequired) <==> Text.GivenText(form.code).Some? && Text.GivenText(form.name).None?
    ensures r == Some(CategoryIdRequired) <==>
      Text.GivenText(form.code).Some? && Text.GivenText(form.name).Some? && form.categoryId.None?
    ensures r.Some? && r.value.ServiceCodeExists? <==>
      Text.GivenText(form.code).Some? && Text.GivenText(form.name).Some? && form.categoryId.Some?
      && CodeTaken(t.services, Text.GivenText(form.code).value, None)
    ensures r.Some? && r.value.ServiceCodeExists? ==> r.value.code == Text.GivenText(form.code).value
    ensures r.Some? && r.value.CategoryNotFound? <==>
      Text.GivenText(form.code).Some? && Text.GivenText(form.name).Some? && form.categoryId.Some?
      && !CodeTaken(t.services, Text.GivenText(form.code).value, None) && !HasCategory(t.categories, form.categoryId.value)
    ensures r.Some? && r.value.CategoryNotFound? ==> r.value.categoryId == form.categoryId.value
    ensures r.Some? ==> r.value in {CodeRequired, NameRequired, CategoryIdRequired}
                        || r.value.ServiceCodeExists? || r.value.CategoryNotFound?
  {
    if Text.GivenText(form.code).None? then Some(CodeRequired)
    else if Text.GivenText(form.name).None? then Some(NameRequired)
    else if form.categoryId.None? then Some(CategoryIdRequired)
    else if CodeTaken(t.services, Text.GivenText(form.code).value, None) then Some(ServiceCodeExists(Text.GivenText(form.code).value))
    else if !HasCategory(t.categories, form.categoryId.value) then Some(CategoryNotFound(form.categoryId.value))
    else None
  }

  /** `createService`: the checks above, then the icon size; the row gets a fresh id,
      the trimmed code and name, the trimmed description if given, the category, and
      active unless given. */
  function CreateService(t: Tables, files: set<string>, form: ServiceForm, uuid: string)
    : (r: Result<(Tables, set<string>, ServiceResponse), CatalogueError>)
    ensures CreateServiceCheck(t, form).Some? ==> r == Failure(CreateServiceCheck(t, form).value)
    ensures CreateServiceCheck(t, form).None? ==> (r.Failure? <==> Oversized(form.iconFile))
    ensures r.Failure? && CreateServiceCheck(t, form).None? ==> r.error == IconTooLarge
    ensures r.Success? ==>
      var (t', files', response) := r.value;
      var n := |t.services|;
      && |t'.services| == n + 1 && t'.services[..n] == t.services
      && t'.categories == t.categories && t'.offers == t.offers
      && var s := t'.services[n];
      && !HasService(t.services, s.id)
      && s.code == Text.GivenText(form.code).value
      && s.name == Text.GivenText(form.name).value
      && s.shortDescription == TrimmedOrNull(form.shortDescription)
      && s.categoryId == form.categoryId.value
      && s.isActive == form.isActive.GetOr(true)
      && NewIcon(files, form.iconFile, form.iconUrl, ServiceIconDirectory, uuid) == Success((files', s.icon))
      && response == FromService(s)
  {
    match CreateServiceCheck(t, form)
    case Some(e) => Failure(e)
    case None =>
      var k := CategoryIndex(t.categories, form.categoryId.value).value;
      match NewIcon(files, form.iconFile, form.iconUrl, ServiceIconDirectory, uuid)
      case Failure(e) => Failure(e)
      case Success((files', icon)) =>
        var s := Service(Fresh(t.services, (x: Service) => x.id), Text.GivenText(form.code).value, Text.GivenText(form.name).value,
                         TrimmedOrNull(form.shortDescription), icon, t.categories[k].id, form.isActive.GetOr(true));
        assert (t.services + [s])[..|t.services|] == t.services;
        Success((Tables(t.categories, t.services + [s], t.offers), files', FromService(s)))
  }

  /** Creating a service keeps the catalogue's constraints: ids and codes unique, and
      the new service's category exists. */
  lemma CreateServicePreservesWf(t: Tables, files: set<string>, form: ServiceForm, uuid: string)
    requires Wf(t)
    requires CreateService(t, files, form, uuid).Success?
    ensures Wf(CreateService(t, files, form, uuid).value.0)
  {
    var t' := CreateService(t, files, form, uuid).value.0;
    var n := |t.services|;
    var s := t'.services[n];
    assert t'.services == t.services + [s];
    AppendedServiceKeepsWf(t, s);
  }

  /** Appending a service with a fresh id, a free code and an existing category keeps
      the catalogue's constraints. */
  lemma AppendedServiceKeepsWf(t: Tables, s: Service)
    requires Wf(t) && !HasService(t.services, s.id) && !CodeTaken(t.services, s.code, None)
    requires HasCategory(t.categories, s.categoryId)
    ensures Wf(Tables(t.categories, t.services + [s], t.offers))
  {
    var services' := t.services + [s];
    var n := |t.services|;
    assert forall k :: 0 <= k < n ==> services'[k] == t.services[k];
    assert services'[n] == s;
  }

  /** A created service reads back by its id as the response the creation returned. */
  lemma CreatedServiceReadable(t: Tables, files: set<string>, form: ServiceForm, uuid: string)
    requires Wf(t)
    requires CreateService(t, files, form, uuid).Success?
    ensures var (t', _, response) := CreateService(t, files, form, uuid).value;
            GetServiceById(t', response.id) == Success(response)
  {
    CreateServicePreservesWf(t, files, form, uuid);
    var t' := CreateService(t, files, form, uuid).value.0;
    GetServiceByIdFinds(t', t'.services[|t.services|]);
  }

  /** The validation of `updateService` before its icon work: an unknown id, then a
      given code held by another service. */
  function UpdateServiceCheck(t: Tables, id: int, form: ServiceForm): (r: Option<CatalogueError>)
    ensures r == Some(ServiceNotFound(id)) <==> !HasService(t.services, id)
    ensures r.Some? && r.value.ServiceCodeExists? <==>
      HasService(t.services, id) && Text.GivenText(form.code).Some? && CodeTaken(t.services, Text.GivenText(form.code).value, Some(id))
    ensures r.Some? && r.value.ServiceCodeExists? ==> r.value.code == Text.GivenText(form.code).value
    ensures r.Some? ==> r.value == ServiceNotFound(id) || r.value.ServiceCodeExists?
  {
    if !HasService(t.services, id) then Some(ServiceNotFound(id))
    else if Text.GivenText(form.code).Some? && CodeTaken(t.services, Text.GivenText(form.code).value, Some(id)) then
      Some(ServiceCodeExists(Text.GivenText(form.code).value))
    else None
  }

  /** The service row after an update, given its new icon and category id. */
  function UpdatedService(prev: Service, form: ServiceForm, icon: Option<string>, categoryId: nat): (s: Service)
    ensures s.id == prev.id && s.icon == icon && s.categoryId == categoryId
    ensures s.code == Text.GivenText(form.code).GetOr(prev.code)
    ensures s.name == Text.GivenText(form.name).GetOr(prev.name)
    ensures form.shortDescription.None? ==> s.shortDescription == prev.shortDescription
    ensures form.shortDescription.Some? ==> s.shortDescription == Text.GivenText(form.shortDescription)
    ensures s.isActive == form.isActive.GetOr(prev.isActive)
  {
    Service(prev.id, Text.GivenText(form.code).GetOr(prev.code), Text.GivenText(form.name).GetOr(prev.name),
            if form.shortDescription.Some? then Text.GivenText(form.shortDescription) else prev.shortDescription,
            icon, categoryId, form.isActive.GetOr(prev.isActive))
  }

  /** `updateService`, in the source's order: the checks above, the icon size check,
      the icon's file work, and only then the category lookup. A missing category
      therefore fails after the old icon file was deleted and the new one stored,
      while the rolled-back row keeps its old icon URL. */
  function UpdateService(t: Tables, files: set<string>, id: int, form: ServiceForm, uuid: string)
    : (r: Effect<(Tables, ServiceResponse), CatalogueError>)
    ensures UpdateServiceCheck(t, id, form).Some? ==> r == Effect(files, Failure(UpdateServiceCheck(t, id, form).value))
    ensures UpdateServiceCheck(t, id, form).None? && Oversized(form.iconFile) ==> r == Effect(files, Failure(IconTooLarge))
    ensures UpdateServiceCheck(t, id, form).None? && !Oversized(form.iconFile) ==>
      var k := ServiceIndex(t.services, id).value;
      var prev := t.services[k];
      var (files', icon) := UpdatedIcon(files, prev.icon, form.iconFile, form.iconUrl, ServiceIconDirectory, uuid, true).value;
      && r.files == files'
      && (r.result.Failure? <==> form.categoryId.Some? && !HasCategory(t.categories, form.categoryId.value))
      && (r.result.Failure? ==> r.result.error == CategoryNotFound(form.categoryId.value))
      && (r.result.Success? ==>
            var s := UpdatedService(prev, form, icon, if form.categoryId.Some? then form.categoryId.value as nat else prev.categoryId);
            r.result.value == (Tables(t.categories, t.services[k := s], t.offers), FromService(s)))
  {
    match UpdateServiceCheck(t, id, form)
    case Some(e) => Effect(files, Failure(e))
    case None =>
      var k := ServiceIndex(t.services, id).value;
      var prev := t.services[k];
      match UpdatedIcon(files, prev.icon, form.iconFile, form.iconUrl, ServiceIconDirectory, uuid, true)
      case Failure(e) => Effect(files, Failure(e))
      case Success((files', icon)) =>
        if form.categoryId.Some? && CategoryIndex(t.categories, form.categoryId.value).None? then
          Effect(files', Failure(CategoryNotFound(form.categoryId.value)))
        else
          var categoryId := if form.categoryId.Some? then t.categories[CategoryIndex(t.categories, form.categoryId.value).value].id
                            else prev.categoryId;
          var s := UpdatedService(prev, form, icon, categoryId);
          Effect(files', Success((Tables(t.categories, t.services[k := s], t.offers), FromService(s))))
  }

  /** Replacing a service by one with the same id keeps every service lookup. */
  lemma ReplaceKeepsServices(services: seq<Service>, k: nat, s: Service)
    requires k < |services| && s.id == services[k].id
    ensures forall id :: HasService(services[k := s], id) <==> HasService(services, id)
  {
    forall id ensures HasService(services[k := s], id) <==> HasService(services, id) {
      if HasService(services, id) {
        var j :| 0 <= j < |services| && services[j].id == id;
        assert services[k := s][j].id == id;
      }
      if HasService(services[k := s], id) {
        var j :| 0 <= j < |services| && services[k := s][j].id == id;
        assert services[j].id == id;
      }
    }
  }

  /** A successful service update keeps the catalogue's constraints: ids and codes
      unique, and the (possibly new) category exists. */
  lemma UpdateServicePreservesWf(t: Tables, files: set<string>, id: int, form: ServiceForm, uuid: string)
    requires Wf(t)
    requires UpdateService(t, files, id, form, uuid).result.Success?
    ensures Wf(UpdateService(t, files, id, form, uuid).result.value.0)
  {
    var t' := UpdateService(t, files, id, form, uuid).result.value.0;
    var k := ServiceIndex(t.services, id).value;
    var s := t'.services[k];
    assert t'.services == t.services[k := s];
    ReplaceKeepsServices(t.services, k, s);
    forall i, j | 0 <= i < j < |t'.services| ensures t'.services[i].code != t'.services[j].code {
      if i == k || j == k {
        var other := if i == k then j else i;
        assert t.services[other].id != id;
        if Text.GivenText(form.code).None? {
          assert s.code == t.services[k].code;
        }
      }
    }
    forall m | 0 <= m < |t'.services| ensures HasCategory(t'.categories, t'.services[m].categoryId) {
      if m != k {
        assert t'.services[m] == t.services[m];
      } else if form.categoryId.None? {
        assert s.categoryId == t.services[k].categoryId;
      }
    }
  }

  /** An updated service reads back by its id as the response the update returned. */
  lemma UpdatedServiceReadable(t: Tables, files: set<string>, id: int, form: ServiceForm, uuid: string)
    requires Wf(t)
    requires UpdateService(t, files, id, form, uuid).result.Success?
    ensures var (t', response) := UpdateService(t, files, id, form, uuid).result.value;
            GetServiceById(t', id) == Success(response)
  {
    UpdateServicePreservesWf(t, files, id, form, uuid);
    var t' := UpdateService(t, files, id, form, uuid).result.value.0;
    var k := ServiceIndex(t.services, id).value;
    GetServiceByIdFinds(t', t'.services[k]);
  }

  /** The code check skips the service itself: resubmitting its own code is never
      refused. */
  lemma OwnCodeAllowed(t: Tables, id: int, form: ServiceForm)
    requires UniqueServiceIds(t.services) && UniqueCodes(t.services)
    requires HasService(t.services, id)
    requires Text.GivenText(form.code) == Some(t.services[ServiceIndex(t.services, id).value].code)
    ensures UpdateServiceCheck(t, id, form).None?
  {
  }

  /** The source's order loses a file: an update with an upload naming a missing
      category fails, yet the service's served icon file has been deleted, while the
      row (rolled back) still carries that icon's URL. */
  lemma UpdateServiceLosesIconOnBadCategory(t: Tables, files: set<string>, id: int, form: ServiceForm, uuid: string, path: string)
    requires HasService(t.services, id) && UpdateServiceCheck(t, id, form).None?
    requires Files.IsPresent(form.iconFile) && !Oversized(form.iconFile)
    requires form.categoryId.Some? && !HasCategory(t.categories, form.categoryId.value)
    requires path != "" && path in files
    requires t.services[ServiceIndex(t.services, id).value].icon == Files.GetFileUrl(Some(path))
    requires path != Files.StoredPath(ServiceIconDirectory, uuid, form.iconFile.value.originalName)
    ensures var r := UpdateService(t, files, id, form, uuid);
            && r.result == Failure(CategoryNotFound(form.categoryId.value))
            && path !in r.files
  {
    Files.PathUrlRoundTrip(path);
    var k := ServiceIndex(t.services, id).value;
    var prev := t.services[k].icon;
    assert Text.StartsWith(prev.value, Files.FilesPrefix);
  }

  /** `updateService` with the category looked up together with the other checks,
      before any file is touched. */
  function UpdateServiceValidated(t: Tables, files: set<string>, id: int, form: ServiceForm, uuid: string)
    : (r: Effect<(Tables, ServiceResponse), CatalogueError>)
    ensures r.result.Failure? ==> r.files == files
    ensures r.result.Failure? <==>
      || UpdateServiceCheck(t, id, form).Some?
      || (form.categoryId.Some? && !HasCategory(t.categories, form.categoryId.value))
      || Oversized(form.iconFile)
  {
    if UpdateServiceCheck(t, id, form).None? && form.categoryId.Some? && !HasCategory(t.categories, form.categoryId.value) then
      Effect(files, Failure(CategoryNotFound(form.categoryId.value)))
    else UpdateService(t, files, id, form, uuid)
  }

  /** Wherever the category is valid, the corrected order computes what the source
      does. */
  lemma ValidatedAgreesWhenCategoryExists(t: Tables, files: set<string>, id: int, form: ServiceForm, uuid: string)
    requires form.categoryId.None? || HasCategory(t.categories, form.categoryId.value)
    ensures UpdateServiceValidated(t, files, id, form, uuid) == UpdateService(t, files, id, form, uuid)
  {
  }

  /** The corrected update keeps the guarantees of a successful update: the
      catalogue's constraints hold and the service reads back as the response. */
  lemma UpdateServiceValidatedKeepsWf(t: Tables, files: set<string>, id: int, form: ServiceForm, uuid: string)
    requires Wf(t)
    requires UpdateServiceCheck(t, id, form).None? && !Oversized(form.iconFile)
    requires form.categoryId.None? || HasCategory(t.categories, form.categoryId.value)
    ensures var r := UpdateServiceValidated(t, files, id, form, uuid).result;
            && r.Success?
            && Wf(r.value.0)
            && GetServiceById(r.value.0, id) == Success(r.value.1)
  {
    ValidatedAgreesWhenCategoryExists(t, files, id, form, uuid);
    UpdateServicePreservesWf(t, files, id, form, uuid);
    UpdatedServiceReadable(t, files, id, form, uuid);
  }

  /** `deleteService`: an unknown id fails first; a service referenced by any
      partner-service row, active or not, cannot be deleted, and the message counts
      the rows; otherwise its served icon file and its row are deleted. */
  function DeleteService(t: Tables, files: set<string>, id: int): (r: Result<(Tables, set<string>), CatalogueError>)
    ensures r.Failure? ==> r.error == ServiceNotFound(id) || r.error.ServiceInUse?
    ensures r == Failure(ServiceNotFound(id)) <==> !HasService(t.services, id)
    ensures r.Failure? && r.error.ServiceInUse? <==>
      HasService(t.services, id) && exists o :: o in t.offers && o.serviceId == id
    ensures r.Failure? && r.error.ServiceInUse? ==>
      r.error.partners == |Seqs.Filter(t.offers, (o: PartnerService) => o.serviceId == id)|
    ensures r.Success? ==>
      var (t', files') := r.value;
      && t'.services == Seqs.Filter(t.services, (s: Service) => s.id != id)
      && t'.categories == t.categories && t'.offers == t.offers
      && files' == DropOldIcon(files, t.services[ServiceIndex(t.services, id).value].icon, true)
  {
    match ServiceIndex(t.services, id)
    case None => Failure(ServiceNotFound(id))
    case Some(k) =>
      var inUse := Seqs.Count(t.offers, (o: PartnerService) => o.serviceId == id);
      if inUse > 0 then
        var j :| 0 <= j < |t.offers| && t.offers[j].serviceId == id;
        assert t.offers[j] in t.offers;
        Failure(ServiceInUse(inUse))
      else
        Success((Tables(t.categories, Seqs.Filter(t.services, (s: Service) => s.id != id), t.offers),
                 DropOldIcon(files, t.services[k].icon, true)))
  }

  /** Every partner-service row names an existing service. */
  predicate OffersResolved(t: Tables) {
    forall k :: 0 <= k < |t.offers| ==> HasService(t.services, t.offers[k].serviceId)
  }

  /** Deleting a service keeps the catalogue's constraints, removes the id and keeps
      every other service. */
  lemma DeleteServicePreservesWf(t: Tables, files: set<string>, id: int, s: Service)
    requires Wf(t)
    requires DeleteService(t, files, id).Success?
    ensures var t' := DeleteService(t, files, id).value.0;
            && Wf(t')
            && !HasService(t'.services, id)
            && (s in t'.services <==> s in t.services && s.id != id)
  {
    var t' := DeleteService(t, files, id).value.0;
    var keep := (x: Service) => x.id != id;
    Seqs.FilterMembership(t.services, keep, s);
    Seqs.FilterPairwise(t.services, keep, (a: Service, b: Service) => a.id != b.id);
    Seqs.FilterPairwise(t.services, keep, (a: Service, b: Service) => a.code != b.code);
    forall k | 0 <= k < |t'.services| ensures HasCategory(t'.categories, t'.services[k].categoryId) {
      var x := t'.services[k];
      assert x in t.services;
    }
  }

  /** Deleting a service leaves no partner-service row dangling: the guard saw that
      none named it. */
  lemma DeleteServiceKeepsOffersResolved(t: Tables, files: set<string>, id: int)
    requires OffersResolved(t)
    requires DeleteService(t, files, id).Success?
    ensures OffersResolved(DeleteService(t, files, id).value.0)
  {
    var t' := DeleteService(t, files, id).value.0;
    var keep := (x: Service) => x.id != id;
    forall k | 0 <= k < |t'.offers| ensures HasService(t'.services, t'.offers[k].serviceId) {
      var o := t.offers[k];
      assert o in t.offers;
      var j :| 0 <= j < |t.services| && t.services[j].id == o.serviceId;
      KeptServiceFound(t.services, id, t.services[j]);
    }
  }

  /** A service other than the deleted one is still found after the delete. */
  lemma KeptServiceFound(services: seq<Service>, id: int, x: Service)
    requires x in services && x.id != id
    ensures HasService(Seqs.Filter(services, (s: Service) => s.id != id), x.id)
  {
    var keep := (s: Service) => s.id != id;
    Seqs.FilterMembership(services, keep, x);
    var kept := Seqs.Filter(services, keep);
    var m :| 0 <= m < |kept| && kept[m] == x;
  }
}
