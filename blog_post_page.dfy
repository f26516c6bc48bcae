/**
 * The blog post page's state (src/components/BlogPost.tsx): the loaded post,
 * the loading flag and the error message set by the load effect, and the id
 * of the code block whose copy button currently reads "Copied!".
 */
module BlogPostPage {
  import opened Wrappers
  import opened JsString
  import opened FrontMatter

  /** How fetching the post's markdown ends. */
  datatype Response =
    | NotOk                             // a response whose `ok` is false
    | Ok(text: string)                  // an ok response and its body text
    | Rejected(message: Option<string>) // `fetch` or `text()` threw: an Error's message, or None for any other value

  const IdNotFound: string := "Blog post ID not found"
  const NotFound: string := "Blog post not found"
  const LoadFailed: string := "Failed to load blog post"

  /** The address the post's markdown is fetched from. */
  function ContentUrl(id: string): string {
    "/blogContent/" + id + ".md"
  }

  /** A route parameter that is missing or empty: `!id`. */
  predicate MissingId(id: Option<string>) {
    id.None? || id.value == ""
  }

  /**
   * The error a load records, or None when it stores a post: a missing id, a
   * response that is not ok, or the message of what was thrown.
   */
  function LoadError(id: Option<string>, response: Response): (e: Option<string>)
    ensures e.None? <==> !MissingId(id) && response.Ok?
    ensures MissingId(id) ==> e == Some(IdNotFound)
    ensures !MissingId(id) && response.NotOk? ==> e == Some(NotFound)
    ensures !MissingId(id) && response.Rejected? ==> e == Some(response.message.GetOr(LoadFailed))
  {
    if MissingId(id) then Some(IdNotFound)
    else match response
      case NotOk => Some(NotFound)
      case Ok(_) => None
      case Rejected(m) => Some(m.GetOr(LoadFailed))
  }

  /** What the page shows. */
  datatype View = Spinner | NotFoundPage(message: Option<string>) | Article(post: Post)

  class Page {
    var blogPost: Option<Post>
    var loading: bool
    var error: Option<string>
    var copiedCode: Option<string>

    /** Once loading has finished, there is an error to show or a post. */
    predicate Valid()
      reads this
    {
      !loading ==> error.Some? || blogPost.Some?
    }

    constructor()
      ensures blogPost == None && loading && error == None && copiedCode == None
      ensures Valid()
    {
      blogPost := None;
      loading := true;
      error := None;
      copiedCode := None;
    }

    /**
     * `loadBlogPost`: a missing id is an error without a fetch; otherwise the
     * markdown at `ContentUrl(id)` is fetched and either parsed into the post
     * or turned into an error. Loading ends in every case. Nothing is reset
     * first: a failed load keeps the previous post, and a successful one keeps
     * the previous error.
     */
    method Load(id: Option<string>, today: string, response: Response) returns (requested: Option<string>)
      modifies this
      ensures !loading && Valid()
      ensures requested == if MissingId(id) then None else Some(ContentUrl(id.value))
      ensures LoadError(id, response).Some? ==> error == LoadError(id, response) && blogPost == old(blogPost)
      ensures LoadError(id, response).None? ==> error == old(error) && blogPost == Some(ParsePost(id.value, response.text, today))
      ensures copiedCode == old(copiedCode)
    {
      if MissingId(id) {
        error := Some(IdNotFound);
        loading := false;
        return None;
      }
      requested := Some(ContentUrl(id.value));
      match response {
        case NotOk =>
          error := Some(NotFound);
        case Rejected(m) =>
          error := Some(m.GetOr(LoadFailed));
        case Ok(text) =>
          var post := ReadPost(id.value, text, today);
          blogPost := Some(post);
      }
      loading := false;
    }

    /**
     * `copyToClipboard`: the clipboard receives the trimmed text, and the
     * block's button reads "Copied!" only when the copy reports success.
     */
    method CopyToClipboard(text: string, codeId: string, copied: bool) returns (clipboardText: string)
      modifies this
      ensures clipboardText == Trim(text)
      ensures copiedCode == if copied then Some(codeId) else old(copiedCode)
      ensures blogPost == old(blogPost) && loading == old(loading) && error == old(error)
    {
      clipboardText := Trim(text);
      if copied {
        copiedCode := Some(codeId);
      }
    }

    /** The timer set by a successful copy: every button reads "Copy" again. */
    method Expire()
      modifies this
      ensures copiedCode == None
      ensures blogPost == old(blogPost) && loading == old(loading) && error == old(error)
    {
      copiedCode := None;
    }

    /** The text of the copy button of block `codeId`. */
    function CopyButtonText(codeId: string): (text: string)
      reads this
      ensures text == "Copied!" <==> copiedCode == Some(codeId)
    {
      if copiedCode == Some(codeId) then "Copied!" else "Copy"
    }

    /**
     * The spinner while loading; then the not-found page for a non-empty error
     * or a missing post, which always has an error value to show; else the
     * stored post.
     */
    function View(): (v: View)
      reads this
      requires Valid()
      ensures v.Spinner? <==> loading
      ensures v.NotFoundPage? <==> !loading && ((error.Some? && error.value != "") || blogPost.None?)
      ensures v.NotFoundPage? ==> v.message == error && error.Some?
      ensures v.Article? <==> !loading && (error.None? || error.value == "") && blogPost.Some?
      ensures v.Article? ==> v.post == blogPost.value
    {
      if loading then Spinner
      else if (error.Some? && error.value != "") || blogPost.None? then NotFoundPage(error)
      else Article(blogPost.value)
    }
  }

  /** A fresh page that loads a post successfully shows that post. */
  method FirstLoad(id: string, text: string, today: string) returns (v: View)
    requires id != ""
    ensures v == Article(ParsePost(id, text, today))
  {
    var page := new Page();
    var _ := page.Load(Some(id), today, Ok(text));
    v := page.View();
  }

  /**
   * The error is never cleared: once the load of one post has failed, the page
   * still shows the not-found page after the route moves to another post and
   * that load succeeds (the effect runs again only when the id changes).
   */
  method ErrorOutlivesReload(failed: string, next: string, text: string, today: string) returns (v: View)
    requires failed != "" && next != "" && failed != next
    ensures v == NotFoundPage(Some(NotFound))
  {
    var page := new Page();
    var _ := page.Load(Some(failed), today, NotOk);
    var _ := page.Load(Some(next), today, Ok(text));
    v := page.View();
  }

  /**
   * Each render of a code block draws a new random id for it, so the render
   * that follows a successful copy gives the block an id other than the one
   * the copy recorded, and its button still reads "Copy".
   */
  method CopiedLabelAsWritten(text: string, clickId: string, redrawnId: string) returns (shown: string)
    requires clickId != redrawnId
    ensures shown == "Copy"
  {
    var page := new Page();
    var _ := page.CopyToClipboard(text, clickId, true);
    shown := page.CopyButtonText(redrawnId);
  }

  /**
   * With an id that stays the same from one render to the next, the button
   * reads "Copied!" after a successful copy and "Copy" again once the timer
   * has fired; a failed copy leaves it at "Copy".
   */
  method CopiedLabelStableId(text: string, codeId: string, copied: bool) returns (during: string, after: string)
    ensures during == if copied then "Copied!" else "Copy"
    ensures after == "Copy"
  {
    var page := new Page();
    var _ := page.CopyToClipboard(text, codeId, copied);
    during := page.CopyButtonText(codeId);
    page.Expire();
    after := page.CopyButtonText(codeId);
  }
}
