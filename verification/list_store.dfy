/**
 * The client-side state store (src/stores/listStore.ts): six observable
 * containers, overwritten in place by two reset actions. Subscriptions and
 * re-rendering are not modelled; a container is a field and `.set(v)` is an
 * assignment to it.
 */
module ListStore {
  import opened Wrappers
  import opened Records

  /** The draft of a new Url; title, description and image are optional. */
  datatype NewUrlInput = NewUrlInput(
    url: string,
    title: Option<string>,
    description: Option<string>,
    image: Option<string>)

  /** The draft the form starts from and is reset to: every field the empty string. */
  const EmptyDraft: NewUrlInput := NewUrlInput("", Some(""), Some(""), Some(""))

  /** A snapshot of all six containers. */
  datatype StoreState = StoreState(
    currentList: Option<ListRecord>,
    listUrls: seq<UrlRecord>,
    newUrl: NewUrlInput,
    customSlug: string,
    isLoading: bool,
    errorMessage: Option<string>)

  /** The values the containers are created with. */
  const Initial: StoreState := StoreState(None, [], EmptyDraft, "", false, None)

  /** `resetForm` on a snapshot: the draft is emptied and the error cleared. */
  function AfterResetForm(s: StoreState): (r: StoreState)
    ensures r.newUrl == EmptyDraft && r.errorMessage == None
    ensures r.currentList == s.currentList && r.listUrls == s.listUrls
    ensures r.customSlug == s.customSlug && r.isLoading == s.isLoading
  {
    s.(newUrl := EmptyDraft, errorMessage := None)
  }

  /** `resetStores` on a snapshot, step by step in the order the action sets the containers. */
  function AfterResetStores(s: StoreState): (r: StoreState)
    ensures r == Initial
  {
    var s1 := s.(currentList := None);
    var s2 := s1.(listUrls := []);
    var s3 := AfterResetForm(s2);
    var s4 := s3.(customSlug := "");
    var s5 := s4.(isLoading := false);
    s5.(errorMessage := None)
  }

  /** Resetting the form twice is resetting it once. */
  lemma ResetFormIdempotent(s: StoreState)
    ensures AfterResetForm(AfterResetForm(s)) == AfterResetForm(s)
  {
  }

  /** Resetting the stores twice is resetting them once. */
  lemma ResetStoresIdempotent(s: StoreState)
    ensures AfterResetStores(AfterResetStores(s)) == AfterResetStores(s)
  {
  }

  /** The initial state already has an empty form: resetting the form there changes nothing. */
  lemma InitialFormIsReset()
    ensures AfterResetForm(Initial) == Initial
  {
  }

  /** The store's containers. */
  class Store {
    var currentList: Option<ListRecord>
    var listUrls: seq<UrlRecord>
    var newUrl: NewUrlInput
    var customSlug: string
    var isLoading: bool
    var errorMessage: Option<string>

    function State(): StoreState
      reads this
    {
      StoreState(currentList, listUrls, newUrl, customSlug, isLoading, errorMessage)
    }

    /** The containers as the module creates them. */
    constructor ()
      ensures State() == Initial
    {
      currentList := None;
      listUrls := [];
      newUrl := EmptyDraft;
      customSlug := "";
      isLoading := false;
      errorMessage := None;
    }

    /** `resetForm()`: empties the new-Url draft and clears the error message; nothing else changes. */
    method ResetForm()
      modifies this
      ensures newUrl == EmptyDraft && errorMessage == None
      ensures currentList == old(currentList) && listUrls == old(listUrls)
      ensures customSlug == old(customSlug) && isLoading == old(isLoading)
      ensures State() == AfterResetForm(old(State()))
    {
      newUrl := EmptyDraft;
      errorMessage := None;
    }

    /** `resetStores()`: every container back to its initial value. */
    method ResetStores()
      modifies this
      ensures State() == Initial
      ensures State() == AfterResetStores(old(State()))
    {
      currentList := None;
      listUrls := [];
      ResetForm();
      customSlug := "";
      isLoading := false;
      errorMessage := None;
    }
  }
}
