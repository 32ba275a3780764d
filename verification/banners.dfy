/** Home-screen banners: a title, an uploaded image served from the file store, an
    optional link, a display position and an active flag. Every failure of a write
    operation reaches the caller wrapped in a "Failed to ... banner: " message. */
module Banners {
  import opened Wrappers
  import opened Ids
  import Text
  import Seqs
  import Files

  const BannerDirectory: string := "banners"

  datatype Banner = Banner(
    id: Uuid,
    title: string,
    imageUrl: string,
    linkUrl: Option<string>,
    displayOrder: int,
    isActive: bool)

  /** The fields a banner response carries; the flag and timestamps are not shown. */
  datatype BannerResponse = BannerResponse(
    id: Uuid,
    title: string,
    imageUrl: string,
    linkUrl: Option<string>,
    displayOrder: int)

  function FromBanner(b: Banner): BannerResponse {
    BannerResponse(b.id, b.title, b.imageUrl, b.linkUrl, b.displayOrder)
  }

  datatype BannerError = TitleRequired | ImageRequired | BannerNotFound(id: Uuid)

  /** The message an error is raised with. The UUID is rendered by its abstract
      number. */
  function Cause(e: BannerError): string {
    match e
    case TitleRequired => "Title is required"
    case ImageRequired => "Banner image is required"
    case BannerNotFound(id) => "Banner not found with id: " + Text.NatToString(id)
  }

  /** The write operation a failure happened in, which names the wrapping message. */
  datatype Operation = Create | Update | Delete

  function OperationPrefix(op: Operation): string {
    match op
    case Create => "Failed to create banner: "
    case Update => "Failed to update banner: "
    case Delete => "Failed to delete banner: "
  }

  /** A write operation rethrows whatever it caught with its own prefix. */
  function Message(op: Operation, e: BannerError): (r: string)
    ensures |r| > |Cause(e)| > 0
  {
    OperationPrefix(op) + Cause(e)
  }

  /** A missing banner's message says "not found" whether or not it is wrapped, which
      is what the exception handler maps to 404. */
  lemma NotFoundPhrase(op: Operation, id: Uuid)
    ensures Text.Contains(Cause(BannerNotFound(id)), "not found")
    ensures Text.Contains(Message(op, BannerNotFound(id)), "not found")
  {
    var c := Cause(BannerNotFound(id));
    assert c[7..16] == "not found";
    Text.ContainsAt(c, 7, "not found");
    Text.ContainsAfter(OperationPrefix(op), c, "not found");
  }

  predicate HasBanner(banners: seq<Banner>, id: Uuid) {
    exists k :: 0 <= k < |banners| && banners[k].id == id
  }

  predicate UniqueIds(banners: seq<Banner>) {
    forall i, j :: 0 <= i < j < |banners| ==> banners[i].id != banners[j].id
  }

  /** `findById`: the first row with the id. */
  function BannerIndex(banners: seq<Banner>, id: Uuid): (r: Option<nat>)
    ensures r.None? <==> !HasBanner(banners, id)
    ensures r.Some? ==> r.value < |banners| && banners[r.value].id == id
  {
    Seqs.FindIndex(banners, (b: Banner) => b.id == id)
  }

  /** With unique ids, the row found is the only one with the id. */
  lemma BannerIndexUnique(banners: seq<Banner>, k: nat)
    requires UniqueIds(banners) && k < |banners|
    ensures BannerIndex(banners, banners[k].id) == Some(k)
  {
  }

  /** `findAllByOrderByDisplayOrderAsc`: every banner in ascending display order. */
  function BannersByDisplayOrder(banners: seq<Banner>): (r: seq<Banner>)
    ensures Seqs.SortedBy(r, (b: Banner) => b.displayOrder)
    ensures multiset(r) == multiset(banners)
  {
    Seqs.SortBy(banners, (b: Banner) => b.displayOrder)
  }

  /** `findByIsActiveTrueOrderByDisplayOrderAsc`: the active banners in ascending
      display order. */
  function ActiveBannersByDisplayOrder(banners: seq<Banner>): (r: seq<Banner>)
    ensures Seqs.SortedBy(r, (b: Banner) => b.displayOrder)
    ensures multiset(r) == multiset(Seqs.Filter(banners, (b: Banner) => b.isActive))
  {
    BannersByDisplayOrder(Seqs.Filter(banners, (b: Banner) => b.isActive))
  }

  /** `getActiveBanners`: one response per active row, in ascending display order. */
  function GetActiveBanners(banners: seq<Banner>): (r: seq<BannerResponse>)
    ensures |r| == |Seqs.Filter(banners, (b: Banner) => b.isActive)|
    ensures Ascending(r)
  {
    var sorted := ActiveBannersByDisplayOrder(banners);
    assert |sorted| == |multiset(sorted)|;
    MappedAscending(sorted);
    Seqs.Map(sorted, FromBanner)
  }

  /** `getAllBanners`: one response per row, in ascending display order. */
  function GetAllBanners(banners: seq<Banner>): (r: seq<BannerResponse>)
    ensures |r| == |banners|
    ensures Ascending(r)
  {
    var sorted := BannersByDisplayOrder(banners);
    assert |sorted| == |multiset(sorted)|;
    MappedAscending(sorted);
    Seqs.Map(sorted, FromBanner)
  }

  /** Responses listed in ascending display order. */
  predicate Ascending(r: seq<BannerResponse>) {
    forall i, j :: 0 <= i < j < |r| ==> r[i].displayOrder <= r[j].displayOrder
  }

  /** The responses of a display-ordered list of banners are in display order. */
  lemma MappedAscending(sorted: seq<Banner>)
    requires Seqs.SortedBy(sorted, (b: Banner) => b.displayOrder)
    ensures Ascending(Seqs.Map(sorted, FromBanner))
  {
    var r := Seqs.Map(sorted, FromBanner);
    forall i, j | 0 <= i < j < |r| ensures r[i].displayOrder <= r[j].displayOrder {
      assert r[i].displayOrder == sorted[i].displayOrder && r[j].displayOrder == sorted[j].displayOrder;
    }
  }

  /** The responses of a rearrangement of `pool`: one for each row of the pool, each
      describing a row of it. */
  lemma RearrangedListing(sorted: seq<Banner>, pool: seq<Banner>, b: Banner)
    requires multiset(sorted) == multiset(pool)
    ensures b in pool ==> FromBanner(b) in Seqs.Map(sorted, FromBanner)
    ensures forall k :: 0 <= k < |sorted| ==> sorted[k] in pool
    ensures |sorted| == |pool|
  {
    var r := Seqs.Map(sorted, FromBanner);
    assert b in sorted <==> b in multiset(sorted);
    assert |sorted| == |multiset(sorted)| == |multiset(pool)| == |pool|;
    if b in pool {
      assert b in multiset(pool);
      var k :| 0 <= k < |sorted| && sorted[k] == b;
      assert r[k] == FromBanner(b);
    }
    forall k | 0 <= k < |sorted| ensures sorted[k] in pool {
      assert sorted[k] in multiset(sorted);
    }
  }

  /** The active listing shows every active banner, only active banners, and in
      ascending display order. */
  lemma ActiveBannersListed(banners: seq<Banner>, b: Banner)
    ensures b in banners && b.isActive ==> FromBanner(b) in GetActiveBanners(banners)
    ensures forall k :: 0 <= k < |GetActiveBanners(banners)| ==>
              exists x :: x in banners && x.isActive && FromBanner(x) == GetActiveBanners(banners)[k]
    ensures Ascending(GetActiveBanners(banners))
  {
    var active := Seqs.Filter(banners, (x: Banner) => x.isActive);
    var sorted := ActiveBannersByDisplayOrder(banners);
    var r := GetActiveBanners(banners);
    Seqs.FilterMembership(banners, (x: Banner) => x.isActive, b);
    RearrangedListing(sorted, active, b);
    forall k | 0 <= k < |r|
      ensures exists x :: x in banners && x.isActive && FromBanner(x) == r[k]
    {
      var x := sorted[k];
      Seqs.FilterMembership(banners, (x: Banner) => x.isActive, x);
      assert x in banners && x.isActive && FromBanner(x) == r[k];
    }
    MappedAscending(sorted);
  }

  /** The full listing shows every banner, inactive ones included, and nothing else,
      in ascending display order. */
  lemma AllBannersListed(banners: seq<Banner>, b: Banner)
    ensures b in banners ==> FromBanner(b) in GetAllBanners(banners)
    ensures forall k :: 0 <= k < |GetAllBanners(banners)| ==>
              exists x :: x in banners && FromBanner(x) == GetAllBanners(banners)[k]
    ensures Ascending(GetAllBanners(banners))
    ensures |GetAllBanners(banners)| == |banners|
  {
    var sorted := BannersByDisplayOrder(banners);
    var r := GetAllBanners(banners);
    RearrangedListing(sorted, banners, b);
    forall k | 0 <= k < |r|
      ensures exists x :: x in banners && FromBanner(x) == r[k]
    {
      assert sorted[k] in banners && FromBanner(sorted[k]) == r[k];
    }
    MappedAscending(sorted);
  }

  /** `getBannerById`, whose failure is not wrapped. */
  function GetBannerById(banners: seq<Banner>, id: Uuid): (r: Result<BannerResponse, BannerError>)
    ensures r.Failure? <==> !HasBanner(banners, id)
    ensures r.Failure? ==> r.error == BannerNotFound(id)
    ensures r.Success? ==> exists k :: 0 <= k < |banners| && banners[k].id == id && r.value == FromBanner(banners[k])
  {
    match BannerIndex(banners, id)
    case None => Failure(BannerNotFound(id))
    case Some(k) => Success(FromBanner(banners[k]))
  }

  /** Under unique ids, a stored banner reads back as its own response. */
  lemma GetBannerByIdFinds(banners: seq<Banner>, k: nat)
    requires UniqueIds(banners) && k < |banners|
    ensures GetBannerById(banners, banners[k].id) == Success(FromBanner(banners[k]))
  {
    BannerIndexUnique(banners, k);
  }

  /** The request parameters of the create and update endpoints. */
  datatype BannerForm = BannerForm(
    title: Option<string>,
    imageFile: Option<Files.Upload>,
    linkUrl: Option<string>,
    displayOrder: Option<int>,
    isActive: Option<bool>)

  /** The path an uploaded banner image is stored under. */
  function ImagePath(form: BannerForm, uuid: string): string
    requires form.imageFile.Some?
  {
    Files.StoredPath(BannerDirectory, uuid, form.imageFile.value.originalName)
  }

  /** `createBanner`: a missing or blank title fails first, then a missing or empty
      image; otherwise the image is stored under "banners" and a banner with a fresh
      id is saved with the trimmed title, the image's URL, the link trimmed (null when
      blank), display order 0 and active unless given. */
  function CreateBanner(banners: seq<Banner>, files: set<string>, form: BannerForm, uuid: string)
    : (r: Result<(seq<Banner>, set<string>, BannerResponse), BannerError>)
    ensures r == Failure(TitleRequired) <==> form.title.None? || Text.IsBlank(form.title.value)
    ensures r == Failure(ImageRequired) <==>
      form.title.Some? && !Text.IsBlank(form.title.value) && !Files.IsPresent(form.imageFile)
    ensures r.Success? ==>
      var (banners', files', response) := r.value;
      var path := ImagePath(form, uuid);
      && |banners'| == |banners| + 1
      && banners'[..|banners|] == banners
      && var b := banners'[|banners|];
      && !HasBanner(banners, b.id)
      && b == Banner(b.id, Text.Trim(form.title.value), Files.FilesPrefix + path, Text.GivenText(form.linkUrl),
                     form.displayOrder.GetOr(0), form.isActive.GetOr(true))
      && files' == files + {path}
      && response == FromBanner(b)
  {
    if form.title.None? || Text.IsBlank(form.title.value) then Failure(TitleRequired)
    else if !Files.IsPresent(form.imageFile) then Failure(ImageRequired)
    else
      var (files', path) := Files.StoreFile(files, form.imageFile, BannerDirectory, uuid).value;
      var id := Fresh(banners, (b: Banner) => b.id);
      var b := Banner(id, Text.Trim(form.title.value), Files.GetFileUrl(Some(path)).value,
                      Text.GivenText(form.linkUrl), form.displayOrder.GetOr(0), form.isActive.GetOr(true));
      Files.StoredPathNonEmpty(BannerDirectory, uuid, form.imageFile.value.originalName);
      assert (banners + [b])[..|banners|] == banners;
      Success((banners + [b], files', FromBanner(b)))
  }

  /** The failures of `createBanner` reach the caller as "Failed to create banner: "
      followed by the validation message. */
  lemma CreateBannerMessages()
    ensures Message(Create, TitleRequired) == "Failed to create banner: Title is required"
    ensures Message(Create, ImageRequired) == "Failed to create banner: Banner image is required"
  {
  }

  /** A created banner keeps ids unique, reads back by its id as the response
      returned, and its image URL leads to the file just stored. */
  lemma CreatedBannerReadable(banners: seq<Banner>, files: set<string>, form: BannerForm, uuid: string)
    requires UniqueIds(banners)
    requires CreateBanner(banners, files, form, uuid).Success?
    ensures var (banners', files', response) := CreateBanner(banners, files, form, uuid).value;
            && UniqueIds(banners')
            && GetBannerById(banners', response.id) == Success(response)
            && Files.ExtractPathFromUrl(Some(response.imageUrl)) == Some(ImagePath(form, uuid))
            && ImagePath(form, uuid) in files'
  {
    var (banners', files', response) := CreateBanner(banners, files, form, uuid).value;
    var n := |banners|;
    assert forall i :: 0 <= i < n ==> banners'[i] == banners[i];
    forall i, j | 0 <= i < j < |banners'| ensures banners'[i].id != banners'[j].id {
      if j == n {
        assert banners'[i].id == banners[i].id;
      }
    }
    GetBannerByIdFinds(banners', n);
    Files.StoredPathNonEmpty(BannerDirectory, uuid, form.imageFile.value.originalName);
    Files.PathUrlRoundTrip(ImagePath(form, uuid));
  }

  /** The banner an update writes: a title with text replaces the old one trimmed; a
      given link replaces the old one, blank meaning none; a given display order or
      flag replaces the old one; the image URL is supplied. */
  function UpdatedBanner(prev: Banner, form: BannerForm, imageUrl: string): (b: Banner)
    ensures b.id == prev.id && b.imageUrl == imageUrl
    ensures b.title == (if Text.GivenText(form.title).Some? then Text.GivenText(form.title).value else prev.title)
    ensures form.linkUrl.None? ==> b.linkUrl == prev.linkUrl
    ensures form.linkUrl.Some? ==> b.linkUrl == Text.GivenText(form.linkUrl)
    ensures b.displayOrder == form.displayOrder.GetOr(prev.displayOrder)
    ensures b.isActive == form.isActive.GetOr(prev.isActive)
  {
    Banner(prev.id,
           Text.GivenText(form.title).GetOr(prev.title),
           imageUrl,
           if form.linkUrl.Some? then Text.GivenText(form.linkUrl) else prev.linkUrl,
           form.displayOrder.GetOr(prev.displayOrder),
           form.isActive.GetOr(prev.isActive))
  }

  /** `updateBanner`: a missing id fails; otherwise the fields are updated as
      `UpdatedBanner` says, and a present image first deletes the file behind the old
      image URL (whatever form that URL has), then is stored and its URL recorded. */
  function UpdateBanner(banners: seq<Banner>, files: set<string>, id: Uuid, form: BannerForm, uuid: string)
    : (r: Result<(seq<Banner>, set<string>, BannerResponse), BannerError>)
    ensures r.Failure? <==> !HasBanner(banners, id)
    ensures r.Failure? ==> r.error == BannerNotFound(id)
    ensures r.Success? ==>
      var (banners', files', response) := r.value;
      var k := BannerIndex(banners, id).value;
      var prev := banners[k];
      && |banners'| == |banners|
      && (Files.IsPresent(form.imageFile) ==>
            && files' == Files.DeleteByUrl(files, Some(prev.imageUrl)) + {ImagePath(form, uuid)}
            && banners' == banners[k := UpdatedBanner(prev, form, Files.FilesPrefix + ImagePath(form, uuid))])
      && (!Files.IsPresent(form.imageFile) ==>
            files' == files && banners' == banners[k := UpdatedBanner(prev, form, prev.imageUrl)])
      && response == FromBanner(banners'[k])
  {
    match BannerIndex(banners, id)
    case None => Failure(BannerNotFound(id))
    case Some(k) =>
      var prev := banners[k];
      if Files.IsPresent(form.imageFile) then
        var (files', path) := Files.StoreFile(Files.DeleteByUrl(files, Some(prev.imageUrl)), form.imageFile, BannerDirectory, uuid).value;
        Files.StoredPathNonEmpty(BannerDirectory, uuid, form.imageFile.value.originalName);
        var b := UpdatedBanner(prev, form, Files.GetFileUrl(Some(path)).value);
        Success((banners[k := b], files', FromBanner(b)))
      else
        var b := UpdatedBanner(prev, form, prev.imageUrl);
        Success((banners[k := b], files, FromBanner(b)))
  }

  /** An update with no field given changes neither the banners nor the files, and
      returns the stored banner. */
  lemma EmptyBannerFormChangesNothing(banners: seq<Banner>, files: set<string>, id: Uuid, uuid: string)
    requires HasBanner(banners, id)
    ensures var k := BannerIndex(banners, id).value;
            UpdateBanner(banners, files, id, BannerForm(None, None, None, None, None), uuid)
              == Success((banners, files, FromBanner(banners[k])))
  {
    var k := BannerIndex(banners, id).value;
    assert UpdatedBanner(banners[k], BannerForm(None, None, None, None, None), banners[k].imageUrl) == banners[k];
    assert banners[k := banners[k]] == banners;
  }

  /** A blank link clears the link, and a blank title keeps the old title. */
  lemma BlankFieldsOnUpdate(banners: seq<Banner>, files: set<string>, id: Uuid, form: BannerForm, uuid: string)
    requires HasBanner(banners, id)
    requires form.linkUrl.Some? && Text.IsBlank(form.linkUrl.value)
    requires form.title.None? || Text.IsBlank(form.title.value)
    ensures var (banners', _, response) := UpdateBanner(banners, files, id, form, uuid).value;
            && response.linkUrl.None?
            && response.title == banners[BannerIndex(banners, id).value].title
  {
  }

  /** Replacing the image deletes the old served file and stores the new one, whose
      URL the banner now carries. */
  lemma UpdateBannerReplacesImage(banners: seq<Banner>, files: set<string>, id: Uuid, form: BannerForm, uuid: string, oldPath: string)
    requires HasBanner(banners, id) && Files.IsPresent(form.imageFile)
    requires oldPath != "" && banners[BannerIndex(banners, id).value].imageUrl == Files.FilesPrefix + oldPath
    requires oldPath != ImagePath(form, uuid)
    ensures var (_, files', response) := UpdateBanner(banners, files, id, form, uuid).value;
            && oldPath !in files'
            && ImagePath(form, uuid) in files'
            && Files.ExtractPathFromUrl(Some(response.imageUrl)) == Some(ImagePath(form, uuid))
  {
    Files.PathUrlRoundTrip(oldPath);
    Files.StoredPathNonEmpty(BannerDirectory, uuid, form.imageFile.value.originalName);
    Files.PathUrlRoundTrip(ImagePath(form, uuid));
  }

  /** An update keeps the ids unique and the updated banner reads back as the response
      returned; every other banner is untouched. */
  lemma UpdatedBannerReadable(banners: seq<Banner>, files: set<string>, id: Uuid, form: BannerForm, uuid: string)
    requires UniqueIds(banners)
    requires UpdateBanner(banners, files, id, form, uuid).Success?
    ensures var (banners', _, response) := UpdateBanner(banners, files, id, form, uuid).value;
            && UniqueIds(banners')
            && GetBannerById(banners', id) == Success(response)
            && forall j :: 0 <= j < |banners| && banners[j].id != id ==> banners'[j] == banners[j]
  {
    var (banners', _, response) := UpdateBanner(banners, files, id, form, uuid).value;
    var k := BannerIndex(banners, id).value;
    assert forall j :: 0 <= j < |banners| ==> banners'[j].id == banners[j].id;
    GetBannerByIdFinds(banners', k);
  }

  /** `deleteBanner`: a missing id fails; otherwise the file behind the image URL is
      deleted and the row removed. */
  function DeleteBanner(banners: seq<Banner>, files: set<string>, id: Uuid)
    : (r: Result<(seq<Banner>, set<string>), BannerError>)
    ensures r.Failure? <==> !HasBanner(banners, id)
    ensures r.Failure? ==> r.error == BannerNotFound(id)
    ensures r.Success? ==>
      && r.value.0 == Seqs.Filter(banners, (b: Banner) => b.id != id)
      && r.value.1 == Files.DeleteByUrl(files, Some(banners[BannerIndex(banners, id).value].imageUrl))
  {
    match BannerIndex(banners, id)
    case None => Failure(BannerNotFound(id))
    case Some(k) =>
      Success((Seqs.Filter(banners, (b: Banner) => b.id != id), Files.DeleteByUrl(files, Some(banners[k].imageUrl))))
  }

  /** After a delete the banner is gone (reading it fails with "not found"), its
      served image file is gone, and every other banner remains. */
  lemma DeletedBannerGone(banners: seq<Banner>, files: set<string>, id: Uuid, path: string, b: Banner)
    requires DeleteBanner(banners, files, id).Success?
    requires path != "" && banners[BannerIndex(banners, id).value].imageUrl == Files.FilesPrefix + path
    ensures var (banners', files') := DeleteBanner(banners, files, id).value;
            && GetBannerById(banners', id) == Failure(BannerNotFound(id))
            && path !in files'
            && (b in banners' <==> b in banners && b.id != id)
  {
    var banners' := DeleteBanner(banners, files, id).value.0;
    Seqs.FilterMembership(banners, (x: Banner) => x.id != id, b);
    Files.PathUrlRoundTrip(path);
  }

  /** Deleting keeps the remaining ids unique. */
  lemma DeleteBannerKeepsUniqueIds(banners: seq<Banner>, files: set<string>, id: Uuid)
    requires UniqueIds(banners)
    requires DeleteBanner(banners, files, id).Success?
    ensures UniqueIds(DeleteBanner(banners, files, id).value.0)
  {
    Seqs.FilterPairwise(banners, (b: Banner) => b.id != id, (a: Banner, b: Banner) => a.id != b.id);
  }
}
