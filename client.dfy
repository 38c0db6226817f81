/**
 * The browser side (static/js/main.js): modal dialogs, the image lightbox,
 * file selection with its preview, the upload-form gate, the AJAX login and
 * register forms, and the navigation guards.
 *
 * A `Page` stands for the DOM and `AppState` of one loaded page. Every
 * asynchronous call is split in two: the handler that starts it records an
 * in-flight request (a fetch) or read (a FileReader), and a later step
 * delivers its result. Results may come back in any order; nothing checks
 * whether a result is still current when it arrives. Popups are modelled as
 * the last message shown; a scheduled or granted navigation as the target
 * the page is leaving for.
 */
module Client {
  import opened Common
  import Strings

  datatype ModalId = LoginModal | RegisterModal | UploadModal | ImageModal

  /** A chosen file: its name, byte size and declared media type. */
  datatype FileInfo = FileInfo(name: string, size: nat, mimeType: string)

  /** What an <img> shows: nothing yet, a file read as a data URL, or a URL. */
  datatype ImageSource = NoImage | DataUrl(file: FileInfo) | Url(url: string)

  /** The `data-original-url` and `data-caption` attributes of a gallery item. */
  datatype GalleryItem = GalleryItem(originalUrl: Option<string>, caption: Option<string>)

  datatype Form = LoginForm | RegisterForm

  /** Why an authentication check was started. */
  datatype AuthPurpose = MyImagesNavigation(href: string) | UploadAccess

  datatype Request = AuthCheck(purpose: AuthPurpose) | FormPost(form: Form)

  /** The outcome of a form post: an exception, or the JSON body's fields. */
  datatype FormReply = Thrown | Reply(success: bool, message: Option<string>, redirect: Option<string>)

  const MaxUploadBytes: nat := 10 * 1024 * 1024

  const TooLargeMessage := "File size cannot exceed 10MB"
  const WrongTypeMessage := "Please select image files (JPG, PNG, GIF, BMP, WebP)"
  const NoFileMessage := "Please select an image to upload"
  const UploadingMessage := "Uploading image... Please wait"
  const LoginFirstMessage := "Please login first"
  const AlreadyHomeMessage := "Already in home page"
  const AlreadyMyImagesMessage := "Already in MyImages page"
  const DefaultCaption := "Pet Image"

  /**
   * `Utils.isHomePage`: the path is compared whole, so exactly three paths
   * are the home page ("/index.html" or "/index/" is not).
   */
  function IsHomePage(path: string): (r: bool)
    ensures r <==> path in {"", "/", "/index"}
  {
    path == "/" || path == "/index" || path == ""
  }

  /** `Utils.isMyImagesPage`: only "/images" itself, which is never a home path. */
  function IsMyImagesPage(path: string): (r: bool)
    ensures r <==> path == "/images"
    ensures r ==> !IsHomePage(path)
  {
    path == "/images"
  }

  /**
   * `type.match('image.*')`: the pattern is an unanchored regular expression,
   * so it holds exactly when "image" occurs anywhere in the type.
   */
  function MatchesImageType(mimeType: string): (r: bool)
    ensures r <==> exists i: nat :: Strings.OccursAt(mimeType, "image", i)
  {
    Strings.Contains(mimeType, "image")
  }

  /**
   * The check is not anchored at either end: any type with "image" anywhere
   * in it passes, whatever comes before or after ("application/x-image").
   */
  lemma ImageTypeMatchIsUnanchored(before: string, after: string)
    ensures MatchesImageType(before + "image" + after)
  {
    var t := before + "image" + after;
    assert t[|before|..|before| + 5] == "image";
    assert Strings.OccursAt(t, "image", |before|);
  }

  /** A type too short to hold "image" never passes: the empty type of an unknown file among them. */
  lemma ShortTypesNeverMatch(mimeType: string)
    requires |mimeType| < 5
    ensures !MatchesImageType(mimeType)
  {
  }

  /** JavaScript's `a || fallback` for a string attribute: an absent or empty `a` falls back. */
  function OrElse(a: Option<string>, fallback: string): string {
    if a.Some? && a.value != "" then a.value else fallback
  }

  /**
   * The URL the lightbox shows for a gallery item: its original URL, else the
   * clicked image's own. It is never any other string, and is blank only
   * when both are.
   */
  function GalleryImageUrl(item: GalleryItem, src: string): (r: string)
    ensures r == src || Some(r) == item.originalUrl
    ensures r == "" <==> src == "" && (item.originalUrl.None? || item.originalUrl.value == "")
    ensures item.originalUrl.Some? && item.originalUrl.value != "" ==> r == item.originalUrl.value
    ensures item.originalUrl.None? || item.originalUrl.value == "" ==> r == src
  {
    OrElse(item.originalUrl, src)
  }

  /** The caption the lightbox shows for a gallery item, "Pet Image" without one. */
  function GalleryCaption(item: GalleryItem): (r: string)
    ensures r != ""
    ensures item.caption.Some? && item.caption.value != "" ==> r == item.caption.value
    ensures item.caption.None? || item.caption.value == "" ==> r == DefaultCaption
  {
    OrElse(item.caption, DefaultCaption)
  }

  function FormModal(form: Form): ModalId {
    match form
    case LoginForm => LoginModal
    case RegisterForm => RegisterModal
  }

  function SuccessMessage(form: Form): string {
    match form
    case LoginForm => "Login successful!"
    case RegisterForm => "Registration successful!"
  }

  function FailureFallback(form: Form): string {
    match form
    case LoginForm => "Login failed"
    case RegisterForm => "Registration failed"
  }

  function ErrorMessage(form: Form): string {
    match form
    case LoginForm => "Login error. Please try again."
    case RegisterForm => "Registration error. Please try again."
  }

  /**
   * `window.location.href = data.redirect`: a redirect the reply carries is
   * followed as it is; an absent one becomes the relative URL "undefined".
   */
  function RedirectTarget(redirect: Option<string>): (r: string)
    ensures redirect.Some? ==> r == redirect.value
    ensures r == "undefined" <==> redirect.None? || redirect == Some("undefined")
  {
    redirect.GetOr("undefined")
  }

  /** The sequence without its `k`-th element: a settled async operation. */
  function RemoveAt<T>(s: seq<T>, k: nat): (r: seq<T>)
    requires k < |s|
    ensures |r| == |s| - 1
    ensures forall j :: 0 <= j < k ==> r[j] == s[j]
    ensures forall j :: k <= j < |r| ==> r[j] == s[j + 1]
  {
    s[..k] + s[k + 1..]
  }

  /** One loaded page: the DOM state the handlers read and write, and `AppState`. */
  class Page {
    /** `window.location.pathname`. */
    const pathname: string
    /** The modal elements present in the page's markup. */
    const present: set<ModalId>

    /** Modals whose `style.display` is 'flex'. */
    var visible: set<ModalId>
    /** `document.body.style.overflow == 'hidden'`. */
    var scrollLocked: bool
    /** `AppState.selectedFile`. */
    var selectedFile: Option<FileInfo>
    /** The file input's content; clearing `input.value` empties it. */
    var inputFile: Option<FileInfo>
    /** The text of the #fileName element. */
    var fileNameText: string
    /** The src of the #fileThumbnail preview image. */
    var thumbnail: ImageSource
    /** #filePreview is displayed. */
    var previewVisible: bool
    /** The #selectedFile box is displayed. */
    var fileBoxVisible: bool
    /** The lightbox's image src and caption text. */
    var lightboxImage: ImageSource
    var lightboxCaption: string
    /** The lightbox image has its click-to-close handler. */
    var lightboxClickBound: bool
    /** FileReader reads started and not yet complete. */
    var readsInFlight: seq<FileInfo>
    /** fetch calls started and not yet settled. */
    var requests: seq<Request>
    /** The last popup message shown. */
    var popup: Option<string>
    /** Where the page is navigating to, once a navigation is granted or scheduled. */
    var navigation: Option<string>

    /**
     * The page's invariant: only present modals are shown, and whenever a
     * file is selected the preview is displayed and shows that file.
     */
    ghost predicate Valid()
      reads this
    {
      && visible <= present
      && (selectedFile.Some? ==> previewVisible && fileBoxVisible && thumbnail == DataUrl(selectedFile.value))
    }

    /** A freshly loaded page: nothing open, selected, pending or shown. */
    constructor (pathname: string, present: set<ModalId>)
      ensures Valid()
      ensures this.pathname == pathname && this.present == present
      ensures visible == {} && !scrollLocked && selectedFile == None && inputFile == None
      ensures fileNameText == "" && thumbnail == NoImage && !previewVisible && !fileBoxVisible
      ensures lightboxImage == NoImage && lightboxCaption == "" && !lightboxClickBound
      ensures readsInFlight == [] && requests == [] && popup == None && navigation == None
    {
      this.pathname := pathname;
      this.present := present;
      visible := {};
      scrollLocked := false;
      selectedFile := None;
      inputFile := None;
      fileNameText := "";
      thumbnail := NoImage;
      previewVisible := false;
      fileBoxVisible := false;
      lightboxImage := NoImage;
      lightboxCaption := "";
      lightboxClickBound := false;
      readsInFlight := [];
      requests := [];
      popup := None;
      navigation := None;
    }

    // -------------------------------------------------------------------------
    // ModalController
    // -------------------------------------------------------------------------

    /** `openModal(id)`: a present modal is shown and page scroll is locked. */
    method OpenModal(id: ModalId)
      requires Valid()
      modifies this`visible, this`scrollLocked
      ensures Valid()
      ensures visible == if id in present then old(visible) + {id} else old(visible)
      ensures scrollLocked == (id in present || old(scrollLocked))
    {
      if id in present {
        visible := visible + {id};
        scrollLocked := true;
      }
    }

    /**
     * `closeModal(id)`: a present modal is hidden and page scroll is unlocked,
     * whether or not another modal is still shown.
     */
    method CloseModal(id: ModalId)
      requires Valid()
      modifies this`visible, this`scrollLocked
      ensures Valid()
      ensures visible == old(visible) - {id}
      ensures scrollLocked == (id !in present && old(scrollLocked))
    {
      if id in present {
        visible := visible - {id};
        scrollLocked := false;
      }
    }

    /**
     * `openLoginModal`: open login, then close register. Login ends shown (if
     * present), register hidden, the other modals as they were; scroll ends
     * unlocked whenever the register modal is present, login open or not.
     */
    method OpenLoginModal()
      requires Valid()
      modifies this`visible, this`scrollLocked
      ensures Valid()
      ensures (LoginModal in visible <==> LoginModal in present) && RegisterModal !in visible
      ensures UploadModal in visible <==> UploadModal in old(visible)
      ensures ImageModal in visible <==> ImageModal in old(visible)
      ensures scrollLocked == if RegisterModal in present then false else LoginModal in present || old(scrollLocked)
    {
      OpenModal(LoginModal);
      CloseModal(RegisterModal);
    }

    /** `openRegisterModal`: the mirror image of `OpenLoginModal`. */
    method OpenRegisterModal()
      requires Valid()
      modifies this`visible, this`scrollLocked
      ensures Valid()
      ensures (RegisterModal in visible <==> RegisterModal in present) && LoginModal !in visible
      ensures UploadModal in visible <==> UploadModal in old(visible)
      ensures ImageModal in visible <==> ImageModal in old(visible)
      ensures scrollLocked == if LoginModal in present then false else RegisterModal in present || old(scrollLocked)
    {
      OpenModal(RegisterModal);
      CloseModal(LoginModal);
    }

    /** `switchToRegister`: close login, then open register (which closes login again). */
    method SwitchToRegister()
      requires Valid()
      modifies this`visible, this`scrollLocked
      ensures Valid()
      ensures (RegisterModal in visible <==> RegisterModal in present) && LoginModal !in visible
      ensures UploadModal in visible <==> UploadModal in old(visible)
      ensures ImageModal in visible <==> ImageModal in old(visible)
      ensures scrollLocked == if LoginModal in present then false else RegisterModal in present || old(scrollLocked)
    {
      CloseModal(LoginModal);
      OpenRegisterModal();
    }

    /** `switchToLogin`: close register, then open login (which closes register again). */
    method SwitchToLogin()
      requires Valid()
      modifies this`visible, this`scrollLocked
      ensures Valid()
      ensures (LoginModal in visible <==> LoginModal in present) && RegisterModal !in visible
      ensures UploadModal in visible <==> UploadModal in old(visible)
      ensures ImageModal in visible <==> ImageModal in old(visible)
      ensures scrollLocked == if RegisterModal in present then false else LoginModal in present || old(scrollLocked)
    {
      CloseModal(RegisterModal);
      OpenLoginModal();
    }

    /**
     * A click on a close button tagged `data-modal = target`: every modal but
     * the lightbox is closed this way; an untagged button does nothing.
     */
    method CloseButtonClick(target: Option<ModalId>)
      requires Valid()
      modifies this`visible, this`scrollLocked
      ensures Valid()
      ensures target.Some? && target.value != ImageModal ==>
        visible == old(visible) - {target.value} && scrollLocked == (target.value !in present && old(scrollLocked))
      ensures target.None? || target.value == ImageModal ==>
        visible == old(visible) && scrollLocked == old(scrollLocked)
    {
      if target.Some? && target.value != ImageModal {
        CloseModal(target.value);
      }
    }

    /**
     * A click anywhere in the window. `backdrop` is the modal whose backdrop
     * element itself was the click's target; a click on a dialog's content
     * or elsewhere has None. Any modal, the lightbox included, closes this way.
     */
    method WindowClick(backdrop: Option<ModalId>)
      requires Valid()
      modifies this`visible, this`scrollLocked
      ensures Valid()
      ensures backdrop.Some? ==>
        visible == old(visible) - {backdrop.value} && scrollLocked == (backdrop.value !in present && old(scrollLocked))
      ensures backdrop.None? ==> visible == old(visible) && scrollLocked == old(scrollLocked)
    {
      if backdrop.Some? {
        CloseModal(backdrop.value);
      }
    }

    // -------------------------------------------------------------------------
    // ImageModalController
    // -------------------------------------------------------------------------

    /**
     * `openImageModal(src, caption)`: shows the lightbox with that image and
     * caption. It sets the display directly rather than through `openModal`,
     * so page scroll is left as it was.
     */
    method OpenImageModal(src: ImageSource, caption: string)
      requires Valid()
      modifies this`visible, this`lightboxImage, this`lightboxCaption, this`lightboxClickBound
      ensures Valid()
      ensures ImageModal in present ==>
        visible == old(visible) + {ImageModal} && lightboxImage == src && lightboxCaption == caption && lightboxClickBound
      ensures ImageModal !in present ==>
        visible == old(visible) && lightboxImage == old(lightboxImage)
        && lightboxCaption == old(lightboxCaption) && lightboxClickBound == old(lightboxClickBound)
    {
      if ImageModal in present {
        lightboxImage := src;
        lightboxCaption := caption;
        visible := visible + {ImageModal};
        lightboxClickBound := true;
      }
    }

    /** A click on the lightbox image, once its handler is bound, closes the lightbox through `closeModal`. */
    method LightboxImageClick()
      requires Valid()
      modifies this`visible, this`scrollLocked
      ensures Valid()
      ensures lightboxClickBound ==>
        visible == old(visible) - {ImageModal} && scrollLocked == (ImageModal !in present && old(scrollLocked))
      ensures !lightboxClickBound ==> visible == old(visible) && scrollLocked == old(scrollLocked)
    {
      if lightboxClickBound {
        CloseModal(ImageModal);
      }
    }

    /** A click on the upload preview opens the lightbox on the preview, captioned with the file name shown. */
    method PreviewThumbnailClick()
      requires Valid()
      modifies this`visible, this`lightboxImage, this`lightboxCaption, this`lightboxClickBound
      ensures Valid()
      ensures ImageModal in present ==>
        && visible == old(visible) + {ImageModal} && lightboxImage == thumbnail && lightboxCaption == fileNameText
        && lightboxClickBound
      ensures ImageModal !in present ==>
        visible == old(visible) && lightboxImage == old(lightboxImage)
        && lightboxCaption == old(lightboxCaption) && lightboxClickBound == old(lightboxClickBound)
    {
      OpenImageModal(thumbnail, fileNameText);
    }

    /**
     * A click on a gallery image whose src is `src`, inside the gallery item
     * `item` (None outside any gallery item, where nothing happens).
     */
    method GalleryImageClick(item: Option<GalleryItem>, src: string)
      requires Valid()
      modifies this`visible, this`lightboxImage, this`lightboxCaption, this`lightboxClickBound
      ensures Valid()
      ensures item.Some? && ImageModal in present ==>
        && visible == old(visible) + {ImageModal}
        && lightboxImage == Url(GalleryImageUrl(item.value, src))
        && lightboxCaption == GalleryCaption(item.value)
        && lightboxClickBound
      ensures item.None? || ImageModal !in present ==>
        visible == old(visible) && lightboxImage == old(lightboxImage)
        && lightboxCaption == old(lightboxCaption) && lightboxClickBound == old(lightboxClickBound)
    {
      if item.Some? {
        OpenImageModal(Url(GalleryImageUrl(item.value, src)), GalleryCaption(item.value));
      }
    }

    // -------------------------------------------------------------------------
    // UploadController and DragDropController
    // -------------------------------------------------------------------------

    /**
     * The effect of `handleFileSelect` on an input holding `f`. Too large
     * (checked first): popup, input cleared, selection kept. Not an image
     * type: popup, input cleared, selection cleared. Otherwise the name is
     * shown and a read of `f` starts; the selection does not change yet.
     */
    twostate predicate FileSelectHandled(f: FileInfo)
      reads this
    {
      if f.size > MaxUploadBytes then
        && popup == Some(TooLargeMessage) && inputFile == None
        && selectedFile == old(selectedFile) && fileNameText == old(fileNameText)
        && readsInFlight == old(readsInFlight)
      else if !MatchesImageType(f.mimeType) then
        && popup == Some(WrongTypeMessage) && inputFile == None
        && selectedFile == None && fileNameText == old(fileNameText)
        && readsInFlight == old(readsInFlight)
      else
        && popup == old(popup) && inputFile == Some(f)
        && selectedFile == old(selectedFile) && fileNameText == f.name
        && readsInFlight == old(readsInFlight) + [f]
    }

    /** `handleFileSelect(input)` on the file input; with no file in it nothing happens. */
    method HandleFileSelect()
      requires Valid()
      modifies this`popup, this`inputFile, this`selectedFile, this`fileNameText, this`readsInFlight
      ensures Valid()
      ensures old(inputFile).Some? ==> FileSelectHandled(old(inputFile).value)
      ensures old(inputFile).None? ==>
        popup == old(popup) && inputFile == old(inputFile) && selectedFile == old(selectedFile)
        && fileNameText == old(fileNameText) && readsInFlight == old(readsInFlight)
    {
      if inputFile.None? {
        return;
      }
      var file := inputFile.value;
      if file.size > MaxUploadBytes {
        popup := Some(TooLargeMessage);
        inputFile := None;
        return;
      }
      if !MatchesImageType(file.mimeType) {
        popup := Some(WrongTypeMessage);
        inputFile := None;
        selectedFile := None;
        return;
      }
      fileNameText := file.name;
      readsInFlight := readsInFlight + [file];
    }

    /** The user picks `f` in the file dialog: the input holds it and its change handler runs. */
    method ChooseFile(f: FileInfo)
      requires Valid()
      modifies this`popup, this`inputFile, this`selectedFile, this`fileNameText, this`readsInFlight
      ensures Valid()
      ensures FileSelectHandled(f)
    {
      inputFile := Some(f);
      HandleFileSelect();
    }

    /** `handleDrop`: a non-empty drop goes into the input and through the same handler as a pick. */
    method HandleDrop(files: seq<FileInfo>)
      requires Valid()
      modifies this`popup, this`inputFile, this`selectedFile, this`fileNameText, this`readsInFlight
      ensures Valid()
      ensures |files| > 0 ==> FileSelectHandled(files[0])
      ensures |files| == 0 ==>
        popup == old(popup) && inputFile == old(inputFile) && selectedFile == old(selectedFile)
        && fileNameText == old(fileNameText) && readsInFlight == old(readsInFlight)
    {
      if |files| > 0 {
        inputFile := Some(files[0]);
        HandleFileSelect();
      }
    }

    /**
     * `reader.onload` for the `k`-th read in flight: the preview shows that
     * file and it becomes the selection, whichever read was started last.
     */
    method OnReadComplete(k: nat)
      requires Valid() && k < |readsInFlight|
      modifies this`thumbnail, this`previewVisible, this`fileBoxVisible, this`selectedFile, this`readsInFlight
      ensures Valid()
      ensures selectedFile == Some(old(readsInFlight)[k])
      ensures thumbnail == DataUrl(old(readsInFlight)[k]) && previewVisible && fileBoxVisible
      ensures readsInFlight == RemoveAt(old(readsInFlight), k)
    {
      var file := readsInFlight[k];
      thumbnail := DataUrl(file);
      previewVisible := true;
      fileBoxVisible := true;
      selectedFile := Some(file);
      readsInFlight := RemoveAt(readsInFlight, k);
    }

    /** `removeSelectedFile`: preview hidden, input cleared, nothing selected. */
    method RemoveSelectedFile()
      requires Valid()
      modifies this`previewVisible, this`inputFile, this`selectedFile
      ensures Valid()
      ensures !previewVisible && inputFile == None && selectedFile == None
    {
      previewVisible := false;
      inputFile := None;
      selectedFile := None;
    }

    /** The upload form's submit handler: the post goes ahead exactly when a file is selected. */
    method SubmitUpload() returns (proceeds: bool)
      requires Valid()
      modifies this`popup
      ensures Valid()
      ensures proceeds <==> selectedFile.Some?
      ensures popup == Some(if proceeds then UploadingMessage else NoFileMessage)
    {
      if selectedFile.None? {
        popup := Some(NoFileMessage);
        return false;
      }
      popup := Some(UploadingMessage);
      return true;
    }

    // -------------------------------------------------------------------------
    // FormController
    // -------------------------------------------------------------------------

    /** `submitLoginForm` / `submitRegisterForm`: the full-page post is prevented and the AJAX post starts. */
    method SubmitForm(form: Form)
      requires Valid()
      modifies this`requests
      ensures Valid()
      ensures requests == old(requests) + [FormPost(form)]
    {
      requests := requests + [FormPost(form)];
    }

    /**
     * The reply to the `k`-th request, a form post. Success: popup, that
     * form's modal closed, navigation to the redirect scheduled. Failure:
     * the server's message (or the fallback) and the modal stays as it was.
     * A thrown error: the fixed error message.
     */
    method OnFormReply(k: nat, reply: FormReply)
      requires Valid() && k < |requests| && requests[k].FormPost?
      modifies this`requests, this`popup, this`visible, this`scrollLocked, this`navigation
      ensures Valid()
      ensures requests == RemoveAt(old(requests), k)
      ensures var form := old(requests)[k].form;
        if reply.Reply? && reply.success then
          && popup == Some(SuccessMessage(form))
          && visible == old(visible) - {FormModal(form)}
          && scrollLocked == (FormModal(form) !in present && old(scrollLocked))
          && navigation == Some(RedirectTarget(reply.redirect))
        else
          && popup == Some(if reply.Thrown? then ErrorMessage(form) else OrElse(reply.message, FailureFallback(form)))
          && visible == old(visible) && scrollLocked == old(scrollLocked) && navigation == old(navigation)
    {
      var form := requests[k].form;
      requests := RemoveAt(requests, k);
      match reply
      case Thrown =>
        popup := Some(ErrorMessage(form));
      case Reply(success, message, redirect) =>
        if success {
          popup := Some(SuccessMessage(form));
          CloseModal(FormModal(form));
          navigation := Some(RedirectTarget(redirect));
        } else {
          popup := Some(OrElse(message, FailureFallback(form)));
        }
    }

    // -------------------------------------------------------------------------
    // NavigationController and the upload link
    // -------------------------------------------------------------------------

    /** A click on a home link: blocked with a popup on the home page, followed anywhere else. */
    method HomeLinkClick(href: string) returns (prevented: bool)
      requires Valid()
      modifies this`popup, this`navigation
      ensures Valid()
      ensures prevented <==> IsHomePage(pathname)
      ensures prevented ==> popup == Some(AlreadyHomeMessage) && navigation == old(navigation)
      ensures !prevented ==> popup == old(popup) && navigation == Some(href)
    {
      if IsHomePage(pathname) {
        popup := Some(AlreadyHomeMessage);
        return true;
      }
      navigation := Some(href);
      return false;
    }

    /**
     * A click on the MyImages link. The default navigation never happens. On
     * /images: a popup and no request. Elsewhere: an authentication check starts.
     */
    method MyImagesLinkClick(href: string)
      requires Valid()
      modifies this`popup, this`requests
      ensures Valid()
      ensures IsMyImagesPage(pathname) ==> popup == Some(AlreadyMyImagesMessage) && requests == old(requests)
      ensures !IsMyImagesPage(pathname) ==>
        popup == old(popup) && requests == old(requests) + [AuthCheck(MyImagesNavigation(href))]
    {
      if IsMyImagesPage(pathname) {
        popup := Some(AlreadyMyImagesMessage);
        return;
      }
      requests := requests + [AuthCheck(MyImagesNavigation(href))];
    }

    /** A click on the upload link (`openUploadModal`): the default is prevented and an authentication check starts. */
    method UploadLinkClick()
      requires Valid()
      modifies this`requests
      ensures Valid()
      ensures requests == old(requests) + [AuthCheck(UploadAccess)]
    {
      requests := requests + [AuthCheck(UploadAccess)];
    }

    /**
     * The reply to the `k`-th request, an authentication check:
     * `Some(authenticated)` from the JSON body, None for a failed fetch or
     * body. Only `Some(true)` grants: the MyImages navigation happens or the
     * upload modal opens. A refusal and a failure show the same popup.
     */
    method OnAuthReply(k: nat, authenticated: Option<bool>)
      requires Valid() && k < |requests| && requests[k].AuthCheck?
      modifies this`requests, this`popup, this`visible, this`scrollLocked, this`navigation
      ensures Valid()
      ensures requests == RemoveAt(old(requests), k)
      ensures var purpose := old(requests)[k].purpose;
        if authenticated == Some(true) then
          && popup == old(popup)
          && (purpose.MyImagesNavigation? ==>
                navigation == Some(purpose.href) && visible == old(visible) && scrollLocked == old(scrollLocked))
          && (purpose.UploadAccess? ==>
                && navigation == old(navigation)
                && visible == (if UploadModal in present then old(visible) + {UploadModal} else old(visible))
                && scrollLocked == (UploadModal in present || old(scrollLocked)))
        else
          popup == Some(LoginFirstMessage)
          && navigation == old(navigation) && visible == old(visible) && scrollLocked == old(scrollLocked)
    {
      var purpose := requests[k].purpose;
      requests := RemoveAt(requests, k);
      if authenticated == Some(true) {
        match purpose
        case MyImagesNavigation(href) =>
          navigation := Some(href);
        case UploadAccess =>
          OpenModal(UploadModal);
      } else {
        popup := Some(LoginFirstMessage);
      }
    }
  }

  // ---------------------------------------------------------------------------
  // Scenarios: short runs that pin down orderings of the handlers
  // ---------------------------------------------------------------------------

  /**
   * On every home path the MyImages link starts an authentication check and
   * shows no popup, whichever modals the page has.
   */
  method MyImagesLinkOnHomePage(path: string, present: set<ModalId>, href: string)
    returns (requests: seq<Request>, popup: Option<string>)
    requires IsHomePage(path)
    ensures requests == [AuthCheck(MyImagesNavigation(href))] && popup == None
  {
    var page := new Page(path, present);
    page.MyImagesLinkClick(href);
    requests, popup := page.requests, page.popup;
  }

  /** On the MyImages page a home link is followed, with no popup. */
  method HomeLinkOnMyImagesPage(present: set<ModalId>, href: string)
    returns (prevented: bool, navigation: Option<string>, popup: Option<string>)
    ensures !prevented && navigation == Some(href) && popup == None
  {
    var page := new Page("/images", present);
    prevented := page.HomeLinkClick(href);
    navigation, popup := page.navigation, page.popup;
  }

  /** Opening the login modal over an open upload modal leaves the upload modal shown with scroll unlocked. */
  method ScenarioScrollUnlockedWithModalOpen() returns (uploadShown: bool, loginShown: bool, scrollLocked: bool)
    ensures uploadShown && loginShown && !scrollLocked
  {
    var page := new Page("/", {LoginModal, RegisterModal, UploadModal, ImageModal});
    page.OpenModal(UploadModal);
    page.OpenLoginModal();
    uploadShown, loginShown, scrollLocked := UploadModal in page.visible, LoginModal in page.visible, page.scrollLocked;
  }

  /**
   * Two valid picks whose reads complete in the opposite order: the first
   * file's late read wins the selection, while the name shown is the second's.
   */
  method ScenarioLateReadWins() returns (selected: Option<FileInfo>, shownName: string)
    ensures selected == Some(FileInfo("a.png", 100, "image/png")) && shownName == "b.png"
  {
    var page := new Page("/", {UploadModal});
    var first := FileInfo("a.png", 100, "image/png");
    var second := FileInfo("b.png", 200, "image/png");
    ImageTypeMatchIsUnanchored("", "/png");
    page.ChooseFile(first);
    page.ChooseFile(second);
    assert page.readsInFlight == [first, second];
    page.OnReadComplete(1);
    page.OnReadComplete(0);
    selected, shownName := page.selectedFile, page.fileNameText;
  }

  /** A 2 MB JPEG dropped on the upload area is previewed and selected with no popup, and the upload may go ahead. */
  method ScenarioDropValidJpeg() returns (selected: Option<FileInfo>, popupBeforeSubmit: Option<string>, proceeds: bool)
    ensures selected == Some(FileInfo("cat.jpg", 2 * 1024 * 1024, "image/jpeg"))
    ensures popupBeforeSubmit == None && proceeds
  {
    var page := new Page("/", {UploadModal});
    var photo := FileInfo("cat.jpg", 2 * 1024 * 1024, "image/jpeg");
    ImageTypeMatchIsUnanchored("", "/jpeg");
    page.HandleDrop([photo]);
    page.OnReadComplete(0);
    selected, popupBeforeSubmit := page.selectedFile, page.popup;
    proceeds := page.SubmitUpload();
  }

  /**
   * On /images the MyImages link starts no request; from the home page a
   * refused check only shows a popup, and a granted one navigates.
   */
  method ScenarioMyImagesGuard()
    returns (requestsOnMyImages: seq<Request>, afterRefusal: Option<string>, refusalPopup: Option<string>,
             afterGrant: Option<string>)
    ensures requestsOnMyImages == [] && afterRefusal == None && refusalPopup == Some(LoginFirstMessage)
    ensures afterGrant == Some("/images")
  {
    var here := new Page("/images", {});
    here.MyImagesLinkClick("/images");
    requestsOnMyImages := here.requests;

    var home := new Page("/", {});
    home.MyImagesLinkClick("/images");
    home.OnAuthReply(0, Some(false));
    afterRefusal, refusalPopup := home.navigation, home.popup;
    home.MyImagesLinkClick("/images");
    home.OnAuthReply(0, Some(true));
    afterGrant := home.navigation;
  }

  /** A successful login reply closes the login modal and schedules the redirect. */
  method ScenarioLoginSuccess() returns (loginShown: bool, popup: Option<string>, navigation: Option<string>)
    ensures !loginShown && popup == Some("Login successful!") && navigation == Some("/images")
  {
    var page := new Page("/", {LoginModal, RegisterModal});
    page.OpenLoginModal();
    page.SubmitForm(LoginForm);
    page.OnFormReply(0, Reply(true, None, Some("/images")));
    loginShown, popup, navigation := LoginModal in page.visible, page.popup, page.navigation;
  }
}
