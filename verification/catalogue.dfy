/** The service catalogue: categories, the services in them, and the partner-service
    rows saying which partner offers which service; the read side of the catalogue
    service and the error messages it raises. */
module Catalogue {
  import opened Wrappers
  import opened Ids
  import Text
  import Seqs

  /** A row of `categories`. */
  datatype Category = Category(id: nat, name: string, icon: Option<string>, displayOrder: int, isActive: bool)

  /** A row of `services`; `categoryId` is the non-null foreign key. */
  datatype Service = Service(
    id: nat,
    code: string,
    name: string,
    shortDescription: Option<string>,
    icon: Option<string>,
    categoryId: nat,
    isActive: bool)

  /** A row of `partner_services`: partner `userId` offers service `serviceId`. */
  datatype PartnerService = PartnerService(userId: Uuid, serviceId: nat, isActive: bool)

  datatype Tables = Tables(categories: seq<Category>, services: seq<Service>, offers: seq<PartnerService>)

  // Errors. Every one is a `RuntimeException` with the message below.

  datatype CatalogueError =
    | NameRequired
    | CodeRequired
    | CategoryIdRequired
    | CategoryNameExists(name: string)
    | ServiceCodeExists(code: string)
    | IconTooLarge
    | CategoryNotFound(categoryId: int)
    | ServiceNotFound(serviceId: int)
    | CategoryInUse(services: nat)
    | ServiceInUse(partners: nat)
    | AvailableServicesFailed(cause: string)

  const AvailableServicesPrefix: string := "Failed to retrieve available services: "

  /** The text each failure is raised with. Only the wrapped failure of the partner
      listing can carry an empty cause, and even then the prefix remains. */
  function Message(e: CatalogueError): (r: string)
    ensures |r| > 0
  {
    match e
    case NameRequired => "Name is required"
    case CodeRequired => "Code is required"
    case CategoryIdRequired => "Category ID is required"
    case CategoryNameExists(name) => "Category with name '" + name + "' already exists"
    case ServiceCodeExists(code) => "Service with code '" + code + "' already exists"
    case IconTooLarge => "Icon file exceeds maximum size of 5MB"
    case CategoryNotFound(id) => "Category not found with id: " + Text.IntToString(id)
    case ServiceNotFound(id) => "Service not found with id: " + Text.IntToString(id)
    case CategoryInUse(n) =>
      "Cannot delete category: Category is being used by " + Text.NatToString(n) + " service(s)"
    case ServiceInUse(n) =>
      "Cannot delete service: Service is being used by " + Text.NatToString(n) + " partner(s)"
    case AvailableServicesFailed(cause) => AvailableServicesPrefix + cause
  }

  /** The text `Collectors.toMap` gives its `IllegalStateException` when two rows map
      to the same key with the value `true`. */
  function DuplicateKeyMessage(key: nat): string {
    "Duplicate key " + Text.NatToString(key) + " (attempted merging values true and true)"
  }

  /** The lookup failures say "not found": the phrase the exception handler maps to
      404. */
  lemma NotFoundPhrase(id: int)
    ensures Text.Contains(Message(CategoryNotFound(id)), "not found")
    ensures Text.Contains(Message(ServiceNotFound(id)), "not found")
  {
    var c := Message(CategoryNotFound(id));
    assert c[9..18] == "not found";
    Text.ContainsAt(c, 9, "not found");
    var s := Message(ServiceNotFound(id));
    assert s[8..17] == "not found";
    Text.ContainsAt(s, 8, "not found");
  }

  /** The uniqueness failures say "already exists": the phrase the exception handler
      maps to 409. */
  lemma AlreadyExistsPhrase(name: string, code: string)
    ensures Text.Contains(Message(CategoryNameExists(name)), "already exists")
    ensures Text.Contains(Message(ServiceCodeExists(code)), "already exists")
  {
    var c := Message(CategoryNameExists(name));
    var i := |"Category with name '"| + |name| + 2;
    assert c[i..i + 14] == "already exists";
    Text.ContainsAt(c, i, "already exists");
    var s := Message(ServiceCodeExists(code));
    var j := |"Service with code '"| + |code| + 2;
    assert s[j..j + 14] == "already exists";
    Text.ContainsAt(s, j, "already exists");
  }

  // Lookups.

  function CategoryIndex(categories: seq<Category>, id: int): (r: Option<nat>)
    ensures r.Some? ==> r.value < |categories| && categories[r.value].id == id
    ensures r.None? <==> !HasCategory(categories, id)
  {
    Seqs.FindIndex(categories, (c: Category) => c.id == id)
  }

  function ServiceIndex(services: seq<Service>, id: int): (r: Option<nat>)
    ensures r.Some? ==> r.value < |services| && services[r.value].id == id
    ensures r.None? <==> !HasService(services, id)
  {
    Seqs.FindIndex(services, (s: Service) => s.id == id)
  }

  predicate HasCategory(categories: seq<Category>, id: int) {
    exists k :: 0 <= k < |categories| && categories[k].id == id
  }

  predicate HasService(services: seq<Service>, id: int) {
    exists k :: 0 <= k < |services| && services[k].id == id
  }

  // Integrity constraints.

  predicate UniqueCategoryIds(categories: seq<Category>) {
    forall i, j :: 0 <= i < j < |categories| ==> categories[i].id != categories[j].id
  }

  /** No two category names are equal ignoring case: the rule the create and update
      operations enforce. */
  predicate DistinctCategoryNames(categories: seq<Category>) {
    forall i, j :: 0 <= i < j < |categories| ==> !Text.EqualsIgnoreCase(categories[i].name, categories[j].name)
  }

  predicate UniqueServiceIds(services: seq<Service>) {
    forall i, j :: 0 <= i < j < |services| ==> services[i].id != services[j].id
  }

  /** The `UNIQUE` constraint on `services.code`. */
  predicate UniqueCodes(services: seq<Service>) {
    forall i, j :: 0 <= i < j < |services| ==> services[i].code != services[j].code
  }

  /** Every service's category exists. */
  predicate ServicesCategorized(t: Tables) {
    forall k :: 0 <= k < |t.services| ==> HasCategory(t.categories, t.services[k].categoryId)
  }

  predicate Wf(t: Tables) {
    && UniqueCategoryIds(t.categories)
    && DistinctCategoryNames(t.categories)
    && UniqueServiceIds(t.services)
    && UniqueCodes(t.services)
    && ServicesCategorized(t)
  }

  // Responses.

  datatype CategoryResponse = CategoryResponse(id: nat, name: string, icon: Option<string>, displayOrder: int)

  datatype ServiceResponse = ServiceResponse(
    id: nat,
    code: string,
    name: string,
    shortDescription: Option<string>,
    icon: Option<string>,
    categoryId: nat)

  function FromCategory(c: Category): CategoryResponse {
    CategoryResponse(c.id, c.name, c.icon, c.displayOrder)
  }

  function FromService(s: Service): ServiceResponse {
    ServiceResponse(s.id, s.code, s.name, s.shortDescription, s.icon, s.categoryId)
  }

  // Reads.

  /** `findByIsActiveTrueOrderByDisplayOrderAsc`: the active categories in ascending
      display order. */
  function ActiveCategories(categories: seq<Category>): (r: seq<Category>)
    ensures Seqs.SortedBy(r, (c: Category) => c.displayOrder)
    ensures multiset(r) == multiset(Seqs.Filter(categories, (c: Category) => c.isActive))
  {
    Seqs.SortBy(Seqs.Filter(categories, (c: Category) => c.isActive), (c: Category) => c.displayOrder)
  }

  /** A row of the sorted active list is an active stored category, and every active
      stored category is in the list. */
  lemma ActiveCategoriesIff(categories: seq<Category>, c: Category)
    ensures c in ActiveCategories(categories) <==> c in categories && c.isActive
  {
    var active := Seqs.Filter(categories, (x: Category) => x.isActive);
    var sorted := ActiveCategories(categories);
    assert c in sorted <==> c in multiset(sorted);
    assert c in active <==> c in multiset(active);
    Seqs.FilterMembership(categories, (x: Category) => x.isActive, c);
  }

  /** `getAllCategories`: one response per active category row. */
  function GetAllCategories(t: Tables): (r: seq<CategoryResponse>)
    ensures |r| == |Seqs.Filter(t.categories, (c: Category) => c.isActive)|
  {
    var sorted := ActiveCategories(t.categories);
    assert |sorted| == |multiset(sorted)|;
    Seqs.Map(sorted, FromCategory)
  }

  /** The category list holds exactly the active categories, in ascending display
      order. */
  lemma GetAllCategoriesListsActive(t: Tables, c: Category)
    ensures c in t.categories && c.isActive ==> FromCategory(c) in GetAllCategories(t)
    ensures forall k :: 0 <= k < |GetAllCategories(t)| ==>
      exists x :: x in t.categories && x.isActive && FromCategory(x) == GetAllCategories(t)[k]
    ensures forall i, j :: 0 <= i < j < |GetAllCategories(t)| ==>
      GetAllCategories(t)[i].displayOrder <= GetAllCategories(t)[j].displayOrder
  {
    var sorted := ActiveCategories(t.categories);
    var r := GetAllCategories(t);
    ActiveCategoriesIff(t.categories, c);
    if c in t.categories && c.isActive {
      var k :| 0 <= k < |sorted| && sorted[k] == c;
      assert r[k] == FromCategory(c);
    }
    forall k | 0 <= k < |r|
      ensures exists x :: x in t.categories && x.isActive && FromCategory(x) == r[k]
    {
      ActiveCategoriesIff(t.categories, sorted[k]);
    }
    forall i, j | 0 <= i < j < |r| ensures r[i].displayOrder <= r[j].displayOrder {
      assert r[i].displayOrder == sorted[i].displayOrder && r[j].displayOrder == sorted[j].displayOrder;
    }
  }

  /** `getCategoryById`. */
  function GetCategoryById(t: Tables, id: int): (r: Result<CategoryResponse, CatalogueError>)
    ensures r.Failure? <==> !HasCategory(t.categories, id)
    ensures r.Failure? ==> r.error == CategoryNotFound(id)
    ensures r.Success? ==> exists k :: 0 <= k < |t.categories| && t.categories[k].id == id
                                       && r.value == FromCategory(t.categories[k])
  {
    match CategoryIndex(t.categories, id)
    case None => Failure(CategoryNotFound(id))
    case Some(k) => Success(FromCategory(t.categories[k]))
  }

  /** `getServiceById`. */
  function GetServiceById(t: Tables, id: int): (r: Result<ServiceResponse, CatalogueError>)
    ensures r.Failure? <==> !HasService(t.services, id)
    ensures r.Failure? ==> r.error == ServiceNotFound(id)
    ensures r.Success? ==> exists k :: 0 <= k < |t.services| && t.services[k].id == id
                                       && r.value == FromService(t.services[k])
  {
    match ServiceIndex(t.services, id)
    case None => Failure(ServiceNotFound(id))
    case Some(k) => Success(FromService(t.services[k]))
  }

  /** With unique ids, the category read by id is the one stored under it. */
  lemma GetCategoryByIdFinds(t: Tables, c: Category)
    requires UniqueCategoryIds(t.categories) && c in t.categories
    ensures GetCategoryById(t, c.id) == Success(FromCategory(c))
  {
    var k :| 0 <= k < |t.categories| && t.categories[k] == c;
    var i := CategoryIndex(t.categories, c.id).value;
    assert i == k;
  }

  /** With unique ids, the service read by id is the one stored under it. */
  lemma GetServiceByIdFinds(t: Tables, s: Service)
    requires UniqueServiceIds(t.services) && s in t.services
    ensures GetServiceById(t, s.id) == Success(FromService(s))
  {
    var k :| 0 <= k < |t.services| && t.services[k] == s;
    var i := ServiceIndex(t.services, s.id).value;
    assert i == k;
  }

  /** `findByCategoryIdAndIsActiveTrueOrderByNameAsc` without its ordering: the active
      services of the category, in table order. */
  function ActiveServicesOf(services: seq<Service>, categoryId: int): (r: seq<Service>)
    ensures forall k :: 0 <= k < |r| ==> r[k] in services && r[k].categoryId == categoryId && r[k].isActive
    ensures forall k :: 0 <= k < |services| && services[k].categoryId == categoryId && services[k].isActive
                        ==> services[k] in r
  {
    Seqs.Filter(services, (s: Service) => s.categoryId == categoryId && s.isActive)
  }

  /** The response describes an active service of the category. */
  ghost predicate DescribesActive(services: seq<Service>, categoryId: int, x: ServiceResponse) {
    exists s :: s in services && s.categoryId == categoryId && s.isActive && x == FromService(s)
  }

  /** `getServicesByCategory`: refuses an unknown category, and otherwise lists its
      active services. */
  function GetServicesByCategory(t: Tables, categoryId: int): (r: Result<seq<ServiceResponse>, CatalogueError>)
    ensures r.Failure? <==> !HasCategory(t.categories, categoryId)
    ensures r.Failure? ==> r.error == CategoryNotFound(categoryId)
    ensures r.Success? ==> forall k :: 0 <= k < |r.value| ==> DescribesActive(t.services, categoryId, r.value[k])
    ensures r.Success? ==> forall s :: s in t.services && s.categoryId == categoryId && s.isActive
                                       ==> FromService(s) in r.value
  {
    if CategoryIndex(t.categories, categoryId).None? then Failure(CategoryNotFound(categoryId))
    else
      var r := Seqs.Map(ActiveServicesOf(t.services, categoryId), FromService);
      ActiveServicesListed(t.services, categoryId, r);
      Success(r)
  }

  /** The responses for a category's active services: one for each of them, and
      nothing else. */
  lemma ActiveServicesListed(services: seq<Service>, categoryId: int, r: seq<ServiceResponse>)
    requires r == Seqs.Map(ActiveServicesOf(services, categoryId), FromService)
    ensures forall k :: 0 <= k < |r| ==> DescribesActive(services, categoryId, r[k])
    ensures forall s :: s in services && s.categoryId == categoryId && s.isActive ==> FromService(s) in r
  {
    var active := ActiveServicesOf(services, categoryId);
    forall k | 0 <= k < |r|
      ensures DescribesActive(services, categoryId, r[k])
    {
      assert r[k] == FromService(active[k]);
      assert active[k] in services && active[k].categoryId == categoryId && active[k].isActive;
    }
    forall s | s in services && s.categoryId == categoryId && s.isActive
      ensures FromService(s) in r
    {
      var k :| 0 <= k < |services| && services[k] == s;
      Seqs.MappedMember(active, FromService, s);
    }
  }

  /** An inactive service is never listed, whatever its category. */
  lemma InactiveServicesHidden(t: Tables, s: Service)
    requires !s.isActive && UniqueServiceIds(t.services) && s in t.services
    requires GetServicesByCategory(t, s.categoryId).Success?
    ensures FromService(s) !in GetServicesByCategory(t, s.categoryId).value
  {
    var r := GetServicesByCategory(t, s.categoryId).value;
  }

  // The partner's available services.

  /** The first key that repeats an earlier one, scanning left to right with `seen`
      holding the keys already met: the element `Collectors.toMap` throws on. */
  function RepeatAfter(keys: seq<nat>, seen: set<nat>): (r: Option<nat>)
    ensures r.None? <==> Seqs.Distinct(keys) && forall k :: 0 <= k < |keys| ==> keys[k] !in seen
    ensures r.Some? ==> r.value in keys && (r.value in seen || exists i, j :: 0 <= i < j < |keys| && keys[i] == r.value && keys[j] == r.value)
    decreases |keys|
  {
    if |keys| == 0 then None
    else if keys[0] in seen then Some(keys[0])
    else
      var rest := RepeatAfter(keys[1..], seen + {keys[0]});
      assert forall k :: 1 <= k < |keys| ==> keys[k] == keys[1..][k - 1];
      if rest.None? then
        assert Seqs.Distinct(keys) by {
          forall i, j | 0 <= i < j < |keys| ensures keys[i] != keys[j] {
            assert keys[j] == keys[1..][j - 1];
            if i > 0 {
              assert keys[i] == keys[1..][i - 1];
            }
          }
        }
        rest
      else
        var v := rest.value;
        assert v in keys[1..];
        if v in seen then rest
        else if v == keys[0] then
          var j :| 0 <= j < |keys[1..]| && keys[1..][j] == v;
          assert keys[0] == v && keys[j + 1] == v;
          rest
        else
          var i, j :| 0 <= i < j < |keys[1..]| && keys[1..][i] == v && keys[1..][j] == v;
          assert keys[i + 1] == v && keys[j + 1] == v;
          rest
  }

  /** The first repeated key of a list, if any. */
  function FirstRepeat(keys: seq<nat>): (r: Option<nat>)
    ensures r.None? <==> Seqs.Distinct(keys)
    ensures r.Some? ==> exists i, j :: 0 <= i < j < |keys| && keys[i] == r.value && keys[j] == r.value
  {
    RepeatAfter(keys, {})
  }

  /** The partner actively offers the service. */
  predicate Offers(offers: seq<PartnerService>, userId: Uuid, serviceId: nat) {
    exists o :: o in offers && o.userId == userId && o.isActive && o.serviceId == serviceId
  }

  /** `findByUserAndIsActiveTrue(user)` mapped to service ids. */
  function OfferedServiceIds(offers: seq<PartnerService>, userId: Uuid): (r: seq<nat>)
    ensures forall k :: 0 <= k < |r| ==> Offers(offers, userId, r[k])
    ensures forall o :: o in offers && o.userId == userId && o.isActive ==> o.serviceId in r
  {
    var mine := Seqs.Filter(offers, (o: PartnerService) => o.userId == userId && o.isActive);
    var ids := Seqs.Map(mine, (o: PartnerService) => o.serviceId);
    assert forall o :: o in offers && o.userId == userId && o.isActive ==> o.serviceId in ids by {
      forall o | o in offers && o.userId == userId && o.isActive ensures o.serviceId in ids {
        var k :| 0 <= k < |offers| && offers[k] == o;
        var m :| 0 <= m < |mine| && mine[m] == o;
        assert ids[m] == o.serviceId;
      }
    }
    assert forall k :: 0 <= k < |ids| ==> Offers(offers, userId, ids[k]) by {
      forall k | 0 <= k < |ids| ensures Offers(offers, userId, ids[k]) {
        var x := mine[k];
        assert x in offers && x.userId == userId && x.isActive && x.serviceId == ids[k];
      }
    }
    ids
  }

  /** The offered set the service filter tests holds exactly the offered ids. */
  lemma OfferedSet(t: Tables, userId: Uuid, id: nat)
    ensures id in (set k | k in OfferedServiceIds(t.offers, userId)) <==> Offers(t.offers, userId, id)
  {
    var keys := OfferedServiceIds(t.offers, userId);
    if id in keys {
      var k :| 0 <= k < |keys| && keys[k] == id;
    }
    if Offers(t.offers, userId, id) {
      var o :| o in t.offers && o.userId == userId && o.isActive && o.serviceId == id;
    }
  }

  /** `AvailableServiceResponse`: one category and the services listed under it. */
  datatype ServiceGroup = ServiceGroup(id: nat, name: string, services: seq<ServiceResponse>)

  /** `v` is the response of an active service of category `categoryId` whose id is in
      `offered`. */
  predicate Listable(services: seq<Service>, offered: set<nat>, categoryId: nat, v: ServiceResponse) {
    exists s :: s in services && s.categoryId == categoryId && s.isActive && s.id in offered && v == FromService(s)
  }

  /** One category's group: its active services that the partner offers. */
  function GroupOf(services: seq<Service>, offered: set<nat>, c: Category): (g: ServiceGroup)
    ensures g.id == c.id && g.name == c.name
    ensures forall k :: 0 <= k < |g.services| ==> Listable(services, offered, c.id, g.services[k])
    ensures forall s :: s in services && s.categoryId == c.id && s.isActive && s.id in offered ==> FromService(s) in g.services
  {
    var active := ActiveServicesOf(services, c.id);
    var chosen := Seqs.Filter(active, (s: Service) => s.id in offered);
    var views := Seqs.Map(chosen, FromService);
    assert forall s :: s in services && s.categoryId == c.id && s.isActive && s.id in offered ==> FromService(s) in views by {
      forall s | s in services && s.categoryId == c.id && s.isActive && s.id in offered ensures FromService(s) in views {
        var k :| 0 <= k < |services| && services[k] == s;
        var a :| 0 <= a < |active| && active[a] == s;
        var m :| 0 <= m < |chosen| && chosen[m] == s;
        assert views[m] == FromService(s);
      }
    }
    assert forall k :: 0 <= k < |views| ==> Listable(services, offered, c.id, views[k]) by {
      forall k | 0 <= k < |views| ensures Listable(services, offered, c.id, views[k]) {
        var x := chosen[k];
        assert x in active && x.id in offered;
        var a :| 0 <= a < |active| && active[a] == x;
        assert x in services && x.categoryId == c.id && x.isActive;
        assert views[k] == FromService(x);
      }
    }
    ServiceGroup(c.id, c.name, views)
  }

  /** The groups of the active categories, in display order, before empty ones are
      dropped. */
  function AllGroups(t: Tables, offered: set<nat>): (r: seq<ServiceGroup>)
    ensures |r| == |ActiveCategories(t.categories)|
    ensures forall k :: 0 <= k < |r| ==> r[k] == GroupOf(t.services, offered, ActiveCategories(t.categories)[k])
  {
    Seqs.Map(ActiveCategories(t.categories), (c: Category) => GroupOf(t.services, offered, c))
  }

  predicate NonEmptyGroup(g: ServiceGroup) {
    |g.services| > 0
  }

  /** A stored active category has this id and name. */
  predicate IsActiveCategory(categories: seq<Category>, id: nat, name: string) {
    exists c :: c in categories && c.isActive && c.id == id && c.name == name
  }

  /** Every group, empty or not, belongs to an active stored category. */
  lemma GroupsOfActiveCategories(t: Tables, offered: set<nat>, g: ServiceGroup)
    requires g in AllGroups(t, offered)
    ensures IsActiveCategory(t.categories, g.id, g.name)
  {
    var groups := AllGroups(t, offered);
    var k :| 0 <= k < |groups| && groups[k] == g;
    var c := ActiveCategories(t.categories)[k];
    ActiveCategoriesIff(t.categories, c);
  }

  /** `getAvailableServicesForPartner`: fails when the partner has two active rows for
      one service; otherwise the active categories in display order, each with the
      active services in it that the partner actively offers, and no empty group. */
  function GetAvailableServicesForPartner(t: Tables, userId: Uuid): (r: Result<seq<ServiceGroup>, CatalogueError>)
    ensures r.Failure? <==> !Seqs.Distinct(OfferedServiceIds(t.offers, userId))
    ensures r.Failure? ==> exists key :: r.error == AvailableServicesFailed(DuplicateKeyMessage(key))
    ensures r.Success? ==> forall i :: 0 <= i < |r.value| ==> |r.value[i].services| > 0
    ensures r.Success? ==> forall i :: 0 <= i < |r.value| ==> IsActiveCategory(t.categories, r.value[i].id, r.value[i].name)
  {
    var keys := OfferedServiceIds(t.offers, userId);
    match FirstRepeat(keys)
    case Some(key) => Failure(AvailableServicesFailed(DuplicateKeyMessage(key)))
    case None =>
      var offered := set k | k in keys;
      var groups := AllGroups(t, offered);
      var listed := Seqs.Filter(groups, NonEmptyGroup);
      assert forall i :: 0 <= i < |listed| ==> IsActiveCategory(t.categories, listed[i].id, listed[i].name) by {
        forall i | 0 <= i < |listed| ensures IsActiveCategory(t.categories, listed[i].id, listed[i].name) {
          GroupsOfActiveCategories(t, offered, listed[i]);
        }
      }
      Success(listed)
  }

  /** What the partner sees, first half: an active service the partner actively offers,
      in an active category, is listed under that category. */
  lemma AvailableServiceListed(t: Tables, userId: Uuid, s: Service, c: Category)
    requires Seqs.Distinct(OfferedServiceIds(t.offers, userId))
    requires s in t.services && s.isActive && Offers(t.offers, userId, s.id)
    requires c in t.categories && c.isActive && c.id == s.categoryId
    ensures var r := GetAvailableServicesForPartner(t, userId).value;
            exists i :: 0 <= i < |r| && r[i].id == s.categoryId && FromService(s) in r[i].services
  {
    var keys := OfferedServiceIds(t.offers, userId);
    var offered := set k | k in keys;
    OfferedSet(t, userId, s.id);
    var groups := AllGroups(t, offered);
    var r := GetAvailableServicesForPartner(t, userId).value;
    assert r == Seqs.Filter(groups, NonEmptyGroup);
    ActiveCategoriesIff(t.categories, c);
    var sorted := ActiveCategories(t.categories);
    var k :| 0 <= k < |sorted| && sorted[k] == c;
    var g := groups[k];
    assert g == GroupOf(t.services, offered, c);
    assert FromService(s) in g.services;
    assert g in r;
    var i :| 0 <= i < |r| && r[i] == g;
  }

  /** Second half: whatever is listed comes from an active service of the group's
      category that the partner actively offers. */
  lemma ListedServiceAvailable(t: Tables, userId: Uuid, i: nat, v: ServiceResponse)
    requires Seqs.Distinct(OfferedServiceIds(t.offers, userId))
    ensures var r := GetAvailableServicesForPartner(t, userId).value;
            i < |r| && v in r[i].services ==>
              exists s :: s in t.services && s.isActive && s.categoryId == r[i].id
                          && Offers(t.offers, userId, s.id) && v == FromService(s)
  {
    var r := GetAvailableServicesForPartner(t, userId).value;
    if i < |r| && v in r[i].services {
      ListedServiceAvailableAt(t, userId, i, v);
    }
  }

  lemma ListedServiceAvailableAt(t: Tables, userId: Uuid, i: nat, v: ServiceResponse)
    requires GetAvailableServicesForPartner(t, userId).Success?
    requires i < |GetAvailableServicesForPartner(t, userId).value|
    requires v in GetAvailableServicesForPartner(t, userId).value[i].services
    ensures exists s :: s in t.services && s.isActive && s.categoryId == GetAvailableServicesForPartner(t, userId).value[i].id
                        && Offers(t.offers, userId, s.id) && v == FromService(s)
  {
    var keys := OfferedServiceIds(t.offers, userId);
    var offered := set k | k in keys;
    var groups := AllGroups(t, offered);
    var r := GetAvailableServicesForPartner(t, userId).value;
    assert r == Seqs.Filter(groups, NonEmptyGroup);
    var k :| 0 <= k < |groups| && groups[k] == r[i];
    var c := ActiveCategories(t.categories)[k];
    var g := groups[k];
    assert g == GroupOf(t.services, offered, c);
    var m :| 0 <= m < |g.services| && g.services[m] == v;
    assert Listable(t.services, offered, c.id, v);
    var s :| s in t.services && s.categoryId == c.id && s.isActive && s.id in offered && v == FromService(s);
    OfferedSet(t, userId, s.id);
  }

  /** The display order of the category stored under `id`. */
  function DisplayOrderOf(categories: seq<Category>, id: nat): int {
    match CategoryIndex(categories, id)
    case None => 0
    case Some(k) => categories[k].displayOrder
  }

  /** With unique ids, a stored category's display order is the one its id finds. */
  lemma DisplayOrderOfStored(categories: seq<Category>, c: Category)
    requires UniqueCategoryIds(categories) && c in categories
    ensures DisplayOrderOf(categories, c.id) == c.displayOrder
  {
    var m :| 0 <= m < |categories| && categories[m] == c;
    var i := CategoryIndex(categories, c.id).value;
    assert i == m;
  }

  /** The groups keep the categories' display order. */
  lemma AvailableGroupsOrdered(t: Tables, userId: Uuid)
    requires UniqueCategoryIds(t.categories)
    requires Seqs.Distinct(OfferedServiceIds(t.offers, userId))
    ensures var r := GetAvailableServicesForPartner(t, userId).value;
            forall i, j :: 0 <= i < j < |r| ==>
              DisplayOrderOf(t.categories, r[i].id) <= DisplayOrderOf(t.categories, r[j].id)
  {
    var keys := OfferedServiceIds(t.offers, userId);
    var offered := set k | k in keys;
    var groups := AllGroups(t, offered);
    var sorted := ActiveCategories(t.categories);
    var rel := (a: ServiceGroup, b: ServiceGroup) => DisplayOrderOf(t.categories, a.id) <= DisplayOrderOf(t.categories, b.id);
    forall i, j | 0 <= i < j < |groups| ensures rel(groups[i], groups[j]) {
      ActiveCategoriesIff(t.categories, sorted[i]);
      ActiveCategoriesIff(t.categories, sorted[j]);
      DisplayOrderOfStored(t.categories, sorted[i]);
      DisplayOrderOfStored(t.categories, sorted[j]);
      assert groups[i].id == sorted[i].id && groups[j].id == sorted[j].id;
      assert sorted[i].displayOrder <= sorted[j].displayOrder;
    }
    Seqs.FilterPairwise(groups, NonEmptyGroup, rel);
    assert GetAvailableServicesForPartner(t, userId).value == Seqs.Filter(groups, NonEmptyGroup);
  }
}
