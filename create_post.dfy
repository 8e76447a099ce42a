/** The post composer, `components/create-post.tsx`: choosing an image,
    removing it, and publishing (an upload of the image first, then the post
    itself). The signed-in user (`None` when there is none), the file picked,
    the data URL the file reader produces and the responses of
    `/api/posts/upload` and `/api/posts` are inputs. */
module CreatePost {
  import opened Common

  /** A picked file: its name and its MIME type. */
  datatype ImageFile = ImageFile(name: string, mimeType: string)

  /** The requests `handlePost` sends, in order. */
  datatype Request =
    | Upload(file: ImageFile)
    | CreatePostRequest(userId: int, content: string, imageUrl: Option<string>)

  /** How the upload ended: a payload whose `imageUrl` may be missing, a
      non-ok status, or a thrown `Error`. */
  datatype UploadOutcome = Uploaded(imageUrl: Option<string>) | UploadNotOk | UploadThrown(message: string)

  /** How the post request ended. */
  datatype PostOutcome = Posted | PostNotOk | PostThrown(message: string)

  const InvalidImageError := "Selecione uma imagem válida"
  const EmptyPostError := "Adicione texto ou uma imagem"
  const SignedOutError := "Você precisa estar logado para postar"
  const UploadFailedError := "Erro ao fazer upload da imagem"
  const PostFailedError := "Erro ao criar post"

  /** `file.type.startsWith("image/")` */
  predicate IsImage(file: ImageFile) {
    "image/" <= file.mimeType
  }

  /** The error `handlePost` stops on before sending anything: a form with
      neither non-blank text nor an image, then a missing user. */
  function Rejection(content: string, image: Option<ImageFile>, user: Option<int>): (r: Option<string>)
    ensures r == Some(EmptyPostError) <==> IsBlank(content) && image.None?
    ensures r == Some(SignedOutError) <==> !(IsBlank(content) && image.None?) && user.None?
    ensures r.None? <==> !(IsBlank(content) && image.None?) && user.Some?
  {
    if IsBlank(content) && image.None? then Some(EmptyPostError)
    else if user.None? then Some(SignedOutError)
    else None
  }

  /** The requests a form that passed validation sends, `text` being its
      trimmed content: the upload of the image, if any, comes first, and a
      failed upload ends the sequence; the post carries the text and the
      uploaded URL, or null without an image. */
  function Requests(text: string, image: Option<ImageFile>, userId: int, upload: UploadOutcome): (r: seq<Request>)
    ensures 1 <= |r| <= 2
    ensures image.Some? <==> r[0].Upload?
    ensures image.Some? ==> r[0].file == image.value
    ensures r[|r| - 1].CreatePostRequest? <==> image.None? || upload.Uploaded?
    ensures r[|r| - 1].CreatePostRequest? ==>
              r[|r| - 1].userId == userId && r[|r| - 1].content == text &&
              r[|r| - 1].imageUrl == (if image.Some? then upload.imageUrl else None)
  {
    if image.None? then [CreatePostRequest(userId, text, None)]
    else if upload.Uploaded? then [Upload(image.value), CreatePostRequest(userId, text, upload.imageUrl)]
    else [Upload(image.value)]
  }

  /** The message a failed upload leaves. */
  function UploadError(upload: UploadOutcome): string
    requires !upload.Uploaded?
  {
    if upload.UploadNotOk? then UploadFailedError else upload.message
  }

  /** The message a failed post leaves. */
  function PostError(post: PostOutcome): string
    requires !post.Posted?
  {
    if post.PostNotOk? then PostFailedError else post.message
  }

  /** The state fields of the component; `error` is `""` when there is none. */
  class Composer {
    var content: string
    var image: Option<ImageFile>
    var imagePreview: Option<string>
    var loading: bool
    var error: string

    constructor ()
      ensures content == "" && image == None && imagePreview == None && !loading && error == ""
    {
      content := "";
      image := None;
      imagePreview := None;
      loading := false;
      error := "";
    }

    /** `handleImageSelect`: an image file becomes the image, its data URL
        the preview, and the error is cleared; anything else (no file, or a
        type not starting with "image/") sets the error and keeps the image
        and the preview. */
    method HandleImageSelect(file: Option<ImageFile>, dataUrl: string)
      modifies this
      ensures file.Some? && IsImage(file.value) ==>
                image == file && imagePreview == Some(dataUrl) && error == ""
      ensures !(file.Some? && IsImage(file.value)) ==>
                image == old(image) && imagePreview == old(imagePreview) && error == InvalidImageError
      ensures content == old(content) && loading == old(loading)
    {
      if file.Some? && IsImage(file.value) {
        image := file;
        imagePreview := Some(dataUrl);
        error := "";
      } else {
        error := InvalidImageError;
      }
    }

    /** `removeImage`: no image and no preview. */
    method RemoveImage()
      modifies this
      ensures image == None && imagePreview == None
      ensures content == old(content) && loading == old(loading) && error == old(error)
    {
      image := None;
      imagePreview := None;
    }

    /** `handlePost`: a rejected form only gets its error; otherwise the
        requests go out in order and their outcome is applied to the form
        (`SendApplied`). Loading ends either way. */
    method HandlePost(user: Option<int>, upload: UploadOutcome, post: PostOutcome)
      returns (sent: seq<Request>, notified: bool)
      modifies this
      ensures var rejected := Rejection(old(content), old(image), user);
              rejected.Some? ==>
                sent == [] && !notified && error == rejected.value && content == old(content) &&
                image == old(image) && imagePreview == old(imagePreview) && loading == old(loading)
      ensures Rejection(old(content), old(image), user).None? ==>
                sent == Requests(Trim(old(content)), old(image), user.value, upload) && !loading &&
                SendApplied(sent, notified, upload, post, old(content), old(image), old(imagePreview))
    {
      var text, blank := TrimText(content);
      if blank && image.None? {
        error := EmptyPostError;
        return [], false;
      }
      if user.None? {
        error := SignedOutError;
        return [], false;
      }
      sent, notified := Send(user.value, text, upload, post);
    }

    /** What the requests' outcome leaves: after a successful post the form
        is reset and the parent notified (`notified`); after a failed upload
        or post the form is kept and the error set. */
    ghost predicate SendApplied(sent: seq<Request>, notified: bool, upload: UploadOutcome, post: PostOutcome,
                                content0: string, image0: Option<ImageFile>, preview0: Option<string>)
      reads this
    {
      |sent| > 0 &&
      (notified <==> sent[|sent| - 1].CreatePostRequest? && post.Posted?) &&
      (notified ==> content == "" && image == None && imagePreview == None && error == "") &&
      (!sent[|sent| - 1].CreatePostRequest? ==>
         !upload.Uploaded? && error == UploadError(upload) &&
         content == content0 && image == image0 && imagePreview == preview0) &&
      (sent[|sent| - 1].CreatePostRequest? && !post.Posted? ==>
         error == PostError(post) && content == content0 && image == image0 && imagePreview == preview0)
    }

    /** The part of `handlePost` after validation, for the trimmed `text`. */
    method Send(userId: int, text: string, upload: UploadOutcome, post: PostOutcome)
      returns (sent: seq<Request>, notified: bool)
      modifies this
      ensures sent == Requests(text, old(image), userId, upload) && !loading
      ensures SendApplied(sent, notified, upload, post, old(content), old(image), old(imagePreview))
    {
      loading := true;
      error := "";
      notified := false;
      sent := Requests(text, image, userId, upload);
      if image.Some? && !upload.Uploaded? {
        error := UploadError(upload);
      } else if post.Posted? {
        content := "";
        image := None;
        imagePreview := None;
        notified := true;
      } else {
        error := PostError(post);
      }
      loading := false;
    }
  }
}
