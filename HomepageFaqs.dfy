/**
 * The homepage-FAQ admin page: a list of FAQs and a modal form that creates
 * or edits one. The page's state (the list, the error banner, whether the
 * modal is open, which FAQ is being edited and the form) is a class whose
 * handlers update it step by step. Network replies are parameters.
 */
module HomepageFaqs {
  import opened Wrappers
  import opened Records
  import opened JsStrings
  import opened Localize
  import opened LocaleForms

  datatype HomepageFaq = HomepageFaq(id: string, question: LocalizedText, answer: LocalizedText, order: int, isActive: bool)

  datatype FaqForm = FaqForm(question: LocalizedText, answer: LocalizedText, order: int, isActive: bool)

  /** The form of a new FAQ: no text, order 0, active. */
  const EmptyForm := FaqForm([], [], 0, true)

  datatype FormField = Question | Answer

  datatype HttpMethod = Post | Put

  datatype Request = Request(verb: HttpMethod, url: string, body: FaqForm)

  /** A reply to a list request: the fetch threw, or the body's `success` and `data`. */
  datatype ListReply = ListFailed | ListBody(success: bool, data: seq<HomepageFaq>)

  /** A reply to a save or delete: the fetch threw, or the body's `success` and `error` ('' when absent). */
  datatype SaveReply = SaveFailed | SaveBody(success: bool, error: string)

  const CollectionUrl := "/api/admin/homepage-faqs"

  /** The form filled from a stored FAQ: its texts, order and active flag. */
  function FormOf(faq: HomepageFaq): (f: FaqForm)
    ensures f.question == faq.question && f.answer == faq.answer
    ensures f.order == faq.order && f.isActive == faq.isActive
  {
    FaqForm(faq.question, faq.answer, faq.order, faq.isActive)
  }

  /** The list entry's heading: `question['en'] || Object.values(question)[0] || 'No question'`. */
  function ListLabel(faq: HomepageFaq): (r: string)
    ensures r == EnglishOrFirst(faq.question, "No question")
    ensures r != ""
    ensures r == "No question" || r in Values(faq.question)
  {
    LookupInValues(faq.question, "en");
    EnglishOrFirst(faq.question, "No question")
  }

  /** The list entry's text: `answer['en'] || Object.values(answer)[0] || 'No answer'`. */
  function AnswerLabel(faq: HomepageFaq): (r: string)
    ensures r != ""
    ensures r == "No answer" || r in Values(faq.answer)
  {
    LookupInValues(faq.answer, "en");
    EnglishOrFirst(faq.answer, "No answer")
  }

  /** The order input: `parseInt(value) || 0`. */
  function OrderInput(value: string): (r: int)
    ensures ParseInt(value).None? ==> r == 0
    ensures ParseInt(value).Some? ==> r == ParseInt(value).value
  {
    ParseIntOrZero(value)
  }

  /** A decimal order typed in is read back as the same number. */
  lemma OrderInputRoundTrip(n: int)
    ensures OrderInput(IntToString(n)) == n
  {
    ParseIntRoundTrip(n);
  }

  class FaqAdminPage {
    var faqs: seq<HomepageFaq>
    var error: string
    var isModalOpen: bool
    var editingFaq: Option<HomepageFaq>
    var formData: FaqForm

    constructor()
      ensures faqs == [] && error == "" && !isModalOpen && editingFaq == None && formData == EmptyForm
    {
      faqs := [];
      error := "";
      isModalOpen := false;
      editingFaq := None;
      formData := EmptyForm;
    }

    /** `fetchFAQs`: a successful reply replaces the list; otherwise the list stays and the banner says why. */
    method FetchFaqs(reply: ListReply)
      modifies this
      ensures reply.ListBody? && reply.success ==> faqs == reply.data && error == old(error)
      ensures reply.ListBody? && !reply.success ==> faqs == old(faqs) && error == "Failed to fetch FAQs"
      ensures reply.ListFailed? ==> faqs == old(faqs) && error == "Error fetching FAQs"
      ensures isModalOpen == old(isModalOpen) && editingFaq == old(editingFaq) && formData == old(formData)
    {
      match reply
      case ListBody(success, data) =>
        if success {
          faqs := data;
        } else {
          error := "Failed to fetch FAQs";
        }
      case ListFailed =>
        error := "Error fetching FAQs";
    }

    /**
     * `handleOpenModal(faq?)`: editing copies the FAQ into the form, adding
     * starts from the empty form; either way the modal opens and the error clears.
     */
    method OpenModal(faq: Option<HomepageFaq>)
      modifies this
      ensures isModalOpen && error == "" && editingFaq == faq
      ensures faq.Some? ==> formData == FormOf(faq.value)
      ensures faq.None? ==> formData == EmptyForm
      ensures faqs == old(faqs)
    {
      if faq.Some? {
        editingFaq := faq;
        formData := FormOf(faq.value);
      } else {
        editingFaq := None;
        formData := EmptyForm;
      }
      isModalOpen := true;
      error := "";
    }

    /** `handleCloseModal`: closed, nothing being edited, the form reset and no error. */
    method CloseModal()
      modifies this
      ensures !isModalOpen && editingFaq == None && formData == EmptyForm && error == ""
      ensures faqs == old(faqs)
    {
      isModalOpen := false;
      editingFaq := None;
      formData := EmptyForm;
      error := "";
    }

    /** `updateFormField(field, language, value)`: only that language of that field changes. */
    method UpdateFormField(field: FormField, language: string, value: string)
      modifies this
      ensures field == Question ==> formData == old(formData).(question := SetLocale(old(formData).question, language, value))
      ensures field == Answer ==> formData == old(formData).(answer := SetLocale(old(formData).answer, language, value))
      ensures faqs == old(faqs) && error == old(error) && isModalOpen == old(isModalOpen) && editingFaq == old(editingFaq)
    {
      match field
      case Question => formData := formData.(question := SetLocale(formData.question, language, value));
      case Answer => formData := formData.(answer := SetLocale(formData.answer, language, value));
    }

    /** The order input's change handler. */
    method SetOrder(value: string)
      modifies this
      ensures formData == old(formData).(order := OrderInput(value))
      ensures faqs == old(faqs) && error == old(error) && isModalOpen == old(isModalOpen) && editingFaq == old(editingFaq)
    {
      formData := formData.(order := OrderInput(value));
    }

    /** The status select's change handler: active exactly when 'true' is chosen. */
    method SetActive(value: string)
      modifies this
      ensures formData == old(formData).(isActive := value == "true")
      ensures faqs == old(faqs) && error == old(error) && isModalOpen == old(isModalOpen) && editingFaq == old(editingFaq)
    {
      formData := formData.(isActive := value == "true");
    }

    /** The request `handleSubmit` sends: PUT to the FAQ's URL when editing, POST to the collection otherwise. */
    function SubmitRequest(): (r: Request)
      reads this
      ensures r.body == formData
      ensures editingFaq.Some? <==> r.verb == Put
      ensures editingFaq.Some? ==> r.url == CollectionUrl + "/" + editingFaq.value.id
      ensures editingFaq.None? ==> r.url == CollectionUrl
    {
      match editingFaq
      case Some(faq) => Request(Put, CollectionUrl + "/" + faq.id, formData)
      case None => Request(Post, CollectionUrl, formData)
    }

    /**
     * `handleSubmit`: a successful save reloads the list and closes the modal,
     * which clears the error banner even when the reload failed; an unsuccessful
     * one keeps the modal and form and shows the server's error or a default.
     */
    method Submit(reply: SaveReply, reload: ListReply)
      modifies this
      ensures reply.SaveBody? && reply.success ==>
        && !isModalOpen && editingFaq == None && formData == EmptyForm && error == ""
        && faqs == (if reload.ListBody? && reload.success then reload.data else old(faqs))
      ensures reply.SaveBody? && !reply.success ==>
        && error == (if reply.error != "" then reply.error else "Failed to save FAQ")
        && isModalOpen == old(isModalOpen) && editingFaq == old(editingFaq) && formData == old(formData) && faqs == old(faqs)
      ensures reply.SaveFailed? ==>
        && error == "Error saving FAQ"
        && isModalOpen == old(isModalOpen) && editingFaq == old(editingFaq) && formData == old(formData) && faqs == old(faqs)
    {
      match reply
      case SaveBody(success, message) =>
        if success {
          FetchFaqs(reload);
          CloseModal();
        } else {
          error := if message != "" then message else "Failed to save FAQ";
        }
      case SaveFailed =>
        error := "Error saving FAQ";
    }

    /** `handleDelete(id)`: nothing without confirmation; a successful delete reloads the list. */
    method Delete(confirmed: bool, reply: SaveReply, reload: ListReply)
      modifies this
      ensures !confirmed ==> faqs == old(faqs) && error == old(error)
      ensures confirmed && reply.SaveBody? && reply.success ==>
        && faqs == (if reload.ListBody? && reload.success then reload.data else old(faqs))
        && error == (if reload.ListBody? && reload.success then old(error)
                     else if reload.ListBody? then "Failed to fetch FAQs"
                     else "Error fetching FAQs")
      ensures confirmed && reply.SaveBody? && !reply.success ==>
        faqs == old(faqs) && error == (if reply.error != "" then reply.error else "Failed to delete FAQ")
      ensures confirmed && reply.SaveFailed? ==> faqs == old(faqs) && error == "Error deleting FAQ"
      ensures isModalOpen == old(isModalOpen) && editingFaq == old(editingFaq) && formData == old(formData)
    {
      if !confirmed {
        return;
      }
      match reply
      case SaveBody(success, message) =>
        if success {
          FetchFaqs(reload);
        } else {
          error := if message != "" then message else "Failed to delete FAQ";
        }
      case SaveFailed =>
        error := "Error deleting FAQ";
    }
  }

  /** Opening an FAQ for editing and submitting it unchanged sends a PUT of that FAQ's own fields. */
  method EditUnchangedSendsSameFaq(page: FaqAdminPage, faq: HomepageFaq) returns (r: Request)
    modifies page
    ensures r == Request(Put, CollectionUrl + "/" + faq.id, FormOf(faq))
  {
    page.OpenModal(Some(faq));
    r := page.SubmitRequest();
  }
}
