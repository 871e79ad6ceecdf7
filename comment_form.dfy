/** `src/components/CommentForm.tsx`: the comment editor. The toolbar
    splices Markdown around the selection; submitting without a stored
    display name parks the text in the browser until the reader signs
    in, and the sign-in then posts it. */
module CommentFormView {
  import opened Wrappers
  import opened JsText
  import opened Browser
  import opened SignInFormView

  /** The text after a toolbar action, and the selection it then sets. */
  datatype Edit = Edit(text: string, selectionStart: int, selectionEnd: int)

  /** No `$`, so `replace` inserts the text as it is. */
  predicate NoDollar(s: string) {
    forall k :: 0 <= k < |s| ==> s[k] != '$'
  }

  /** What is wrapped: the selection, or the placeholder when nothing is
      selected. */
  function SelectedOr(text: string, start: int, end: int, placeholder: string): (r: string)
    requires 0 <= start <= end <= |text|
    ensures start < end ==> r == text[start..end]
    ensures start == end ==> r == placeholder
  {
    if text[start..end] != "" then text[start..end] else placeholder
  }

  /** `insertMarkdown` as written: `syntax.replace("text", selected)`
      with the selected text as a string replacement, so that `$&`,
      `$$`, `` $` `` and `$'` in the selection are expanded. The text
      around the selection is kept whatever the selection holds. */
  function InsertMarkdownTextAsWritten(text: string, start: int, end: int, syntax: string, placeholder: string): (e: Edit)
    requires 0 <= start <= end <= |text|
    ensures start <= |e.text| && e.text[..start] == text[..start]
    ensures |text| - end <= |e.text| && e.text[|e.text| - (|text| - end)..] == text[end..]
  {
    var selected := SelectedOr(text, start, end, placeholder);
    var i := IndexOf(syntax, "text");
    var middle := ReplaceFirstJs(syntax, "text", selected);
    KeepsEnds(text, start, end, middle);
    Edit(text[..start] + middle + text[end..], start + i, start + i + |selected|)
  }

  /** `insertMarkdown` with the selection inserted literally: the text
      before `start` and after `end` is kept, the first "text" of the
      syntax is replaced by the selection (or the placeholder), and the
      new selection covers exactly what was inserted. */
  function InsertMarkdownText(text: string, start: int, end: int, syntax: string, placeholder: string): (e: Edit)
    requires 0 <= start <= end <= |text|
    ensures start <= |e.text| && e.text[..start] == text[..start]
    ensures |text| - end <= |e.text| && e.text[|e.text| - (|text| - end)..] == text[end..]
    ensures IndexOf(syntax, "text") >= 0 ==>
      var selected := SelectedOr(text, start, end, placeholder);
      && |e.text| == |text| - (end - start) + |syntax| - 4 + |selected|
      && start <= e.selectionStart <= e.selectionEnd <= |e.text|
      && e.text[e.selectionStart..e.selectionEnd] == selected
      && e.selectionStart == start + IndexOf(syntax, "text")
    ensures IndexOf(syntax, "text") == -1 ==> e.text == text[..start] + syntax + text[end..]
  {
    var selected := SelectedOr(text, start, end, placeholder);
    var i := IndexOf(syntax, "text");
    var middle := ReplaceFirstLiteral(syntax, "text", selected);
    KeepsEnds(text, start, end, middle);
    LiteralSelection(text, start, end, syntax, selected);
    Edit(text[..start] + middle + text[end..], start + i, start + i + |selected|)
  }

  /** Splicing a piece in between `start` and `end` keeps the text on
      either side. */
  lemma KeepsEnds(text: string, start: int, end: int, middle: string)
    requires 0 <= start <= end <= |text|
    ensures var r := text[..start] + middle + text[end..];
      && start <= |r| && r[..start] == text[..start]
      && |text| - end <= |r| && r[|r| - (|text| - end)..] == text[end..]
  {
    var r := text[..start] + middle + text[end..];
    assert r[..start] == text[..start];
    assert r[|r| - (|text| - end)..] == text[end..];
  }

  /** With "text" in the syntax, the literal insertion puts the
      selection where "text" was. */
  lemma LiteralSelection(text: string, start: int, end: int, syntax: string, selected: string)
    requires 0 <= start <= end <= |text|
    ensures var i := IndexOf(syntax, "text");
      var r := text[..start] + ReplaceFirstLiteral(syntax, "text", selected) + text[end..];
      i >= 0 ==>
        && |r| == |text| - (end - start) + |syntax| - 4 + |selected|
        && start + i + |selected| <= |r|
        && r[start + i..start + i + |selected|] == selected
  {
    var i := IndexOf(syntax, "text");
    if i >= 0 {
      Splice(text[..start], syntax[..i], selected, syntax[i + 4..], text[end..]);
    }
  }

  /** Where an inserted piece sits once it is spliced in. */
  lemma Splice(pre: string, a: string, sel: string, b: string, post: string)
    ensures var r := pre + (a + sel + b) + post;
      r[|pre| + |a|..|pre| + |a| + |sel|] == sel
  {
    var r := pre + (a + sel + b) + post;
    assert forall k :: 0 <= k < |sel| ==> r[|pre| + |a| + k] == sel[k];
  }

  /** Without a `$` in the selection the two agree, which covers every
      placeholder of the toolbar. */
  lemma AsWrittenAgreesWithoutDollar(text: string, start: int, end: int, syntax: string, placeholder: string)
    requires 0 <= start <= end <= |text|
    requires NoDollar(SelectedOr(text, start, end, placeholder))
    ensures InsertMarkdownTextAsWritten(text, start, end, syntax, placeholder) == InsertMarkdownText(text, start, end, syntax, placeholder)
  {
  }

  /** Bolding the selected "a$&b" gives "**atextb**", where "**a$&b**"
      was meant: the new text is two characters short and the selection
      the editor then sets no longer covers what was inserted. */
  lemma DollarInSelectionIsExpanded()
    ensures var e := InsertMarkdownTextAsWritten("a$&b", 0, 4, "**text**", "bold text");
      e.text == "**atextb**" && e.text[e.selectionStart..e.selectionEnd] != "a$&b"
  {
    AsWrittenBoldEdit();
    var t := "**atextb**";
    assert t[2..6][1] == 't';
  }

  lemma AsWrittenBoldEdit()
    ensures InsertMarkdownTextAsWritten("a$&b", 0, 4, "**text**", "bold text") == Edit("**atextb**", 2, 6)
  {
    var syntax, text := "**text**", "a$&b";
    BoldPlaceholderAt();
    DollarAmpersandExpands();
    assert SelectedOr(text, 0, 4, "bold text") == text;
    assert syntax[..2] == "**" && syntax[6..] == "**";
    assert ReplaceFirstJs(syntax, "text", text) == "**" + "atextb" + "**";
    assert text[..0] + "**atextb**" + text[4..] == "**atextb**";
  }

  /** The same action with the literal insertion. */
  lemma LiteralInsertKeepsDollar()
    ensures InsertMarkdownText("a$&b", 0, 4, "**text**", "bold text").text == "**a$&b**"
  {
    var syntax, text := "**text**", "a$&b";
    BoldPlaceholderAt();
    assert SelectedOr(text, 0, 4, "bold text") == text;
    assert ReplaceFirstLiteral(syntax, "text", text) == "**" + text + "**";
  }

  lemma BoldPlaceholderAt()
    ensures IndexOf("**text**", "text") == 2
  {
    var syntax := "**text**";
    assert syntax[0..4][0] != "text"[0];
    assert syntax[1..5][0] != "text"[0];
    assert syntax[2..6] == "text";
    assert IndexFrom(syntax, "text", 2) == 2;
    assert IndexFrom(syntax, "text", 1) == 2;
  }

  lemma DollarAmpersandExpands()
    ensures Substitution("a$&b", "text", "**", "**") == "atextb"
  {
    assert Substitution("b", "text", "**", "**") == "b";
    assert Substitution("$&b", "text", "**", "**") == "textb";
  }

  /** What the editor holds once mounted: a reply starts with "@" and
      the parent's author; otherwise a parked comment is restored. */
  function InitialContent(isReply: bool, parentAuthor: Option<string>, pending: Option<string>): (r: string)
    ensures isReply && parentAuthor.Some? ==>
      |r| == |parentAuthor.value| + 2 && r[0] == '@' && r[1..|r| - 1] == parentAuthor.value && r[|r| - 1] == ' '
    ensures !(isReply && parentAuthor.Some?) && pending.Some? && pending.value != "" ==> r == pending.value
    ensures !(isReply && parentAuthor.Some?) && (pending.None? || pending.value == "") ==> r == ""
  {
    if isReply && parentAuthor.Some? then
      var r := "@" + parentAuthor.value + " ";
      assert r[1..|r| - 1] == parentAuthor.value;
      r
    else if pending.Some? && pending.value != "" then pending.value
    else ""
  }

  /** The callbacks the editor makes to its owner, in order. */
  datatype Call = Submit(content: string, displayName: string) | Cancel

  class CommentForm {
    var content: string
    var isPreviewMode: bool
    var isSignInModalOpen: bool
    var calls: seq<Call>
    const storage: LocalStorage
    const isReply: bool
    const hasOnCancel: bool

    /** Mounting, with the prefill effect. `parentAuthor` is the author
        of the comment replied to, when there is one. */
    constructor(storage: LocalStorage, isReply: bool, parentAuthor: Option<string>, hasOnCancel: bool)
      ensures this.storage == storage && this.isReply == isReply && this.hasOnCancel == hasOnCancel
      ensures content == InitialContent(isReply, parentAuthor, storage.GetItem("pendingComment"))
      ensures !isPreviewMode && !isSignInModalOpen && calls == []
    {
      this.storage := storage;
      this.isReply := isReply;
      this.hasOnCancel := hasOnCancel;
      isPreviewMode := false;
      isSignInModalOpen := false;
      calls := [];
      if isReply && parentAuthor.Some? {
        content := "@" + parentAuthor.value + " ";
      } else {
        var stored := storage.GetItem("pendingComment");
        if stored.Some? && stored.value != "" {
          content := stored.value;
        } else {
          content := "";
        }
      }
    }

    /** `handleInput`. */
    method Input(value: string)
      modifies this
      ensures content == value
      ensures isPreviewMode == old(isPreviewMode) && isSignInModalOpen == old(isSignInModalOpen) && calls == old(calls)
    {
      content := value;
    }

    /** A toolbar button, as written. In preview mode the textarea is not
        rendered and nothing happens; `start` and `end` are the
        textarea's selection. When the selected text holds no `$` the
        edit is the literal insertion, with its length and selection
        properties. */
    method InsertMarkdown(syntax: string, placeholder: string, start: int, end: int) returns (selection: Option<(int, int)>)
      requires 0 <= start <= end <= |content|
      modifies this
      ensures old(isPreviewMode) ==> content == old(content) && selection.None?
      ensures !old(isPreviewMode) ==>
        var e := InsertMarkdownTextAsWritten(old(content), start, end, syntax, placeholder);
        content == e.text && selection == Some((e.selectionStart, e.selectionEnd))
      ensures !old(isPreviewMode) && NoDollar(SelectedOr(old(content), start, end, placeholder)) ==>
        var e := InsertMarkdownText(old(content), start, end, syntax, placeholder);
        content == e.text && selection == Some((e.selectionStart, e.selectionEnd))
      ensures isPreviewMode == old(isPreviewMode) && isSignInModalOpen == old(isSignInModalOpen) && calls == old(calls)
    {
      if isPreviewMode {
        return None;
      }
      var selected := SelectedOr(content, start, end, placeholder);
      if NoDollar(selected) {
        AsWrittenAgreesWithoutDollar(content, start, end, syntax, placeholder);
      }
      var e := InsertMarkdownTextAsWritten(content, start, end, syntax, placeholder);
      content := e.text;
      selection := Some((e.selectionStart, e.selectionEnd));
    }

    /** `handleSubmit`. Blank content is ignored; with a stored display
        name the untrimmed content is posted under it and the editor
        cleared; without one the content is parked and the sign-in
        dialog opened. */
    method HandleSubmit()
      modifies this, storage
      ensures AllWhitespace(old(content)) ==>
        && content == old(content) && isPreviewMode == old(isPreviewMode)
        && isSignInModalOpen == old(isSignInModalOpen) && calls == old(calls)
        && storage.items == old(storage.items)
      ensures !AllWhitespace(old(content)) && Truthy(old(storage.GetItem("displayName"))) ==>
        && calls == old(calls) + [Submit(old(content), old(storage.items)["displayName"])]
        && content == "" && !isPreviewMode && isSignInModalOpen == old(isSignInModalOpen)
        && storage.items == old(storage.items) - {"pendingComment"}
      ensures !AllWhitespace(old(content)) && !Truthy(old(storage.GetItem("displayName"))) ==>
        && calls == old(calls)
        && content == old(content) && isPreviewMode == old(isPreviewMode) && isSignInModalOpen
        && storage.items == old(storage.items)["pendingComment" := old(content)]
    {
      if Trim(content) == "" {
        return;
      }
      var displayName := storage.GetItem("displayName");
      if Truthy(displayName) {
        calls := calls + [Submit(content, displayName.value)];
        content := "";
        isPreviewMode := false;
        storage.RemoveItem("pendingComment");
      } else {
        storage.SetItem("pendingComment", content);
        isSignInModalOpen := true;
      }
    }

    /** `handleSignIn`, called by the sign-in dialog: a parked comment is
        posted once under the new name and removed; the editor is then
        cleared and the dialog closed in every case. */
    method HandleSignIn(username: string, provider: string)
      modifies this, storage
      ensures Truthy(old(storage.GetItem("pendingComment"))) ==>
        && calls == old(calls) + [Submit(old(storage.items)["pendingComment"], username)]
        && storage.items == old(storage.items) - {"pendingComment"}
      ensures !Truthy(old(storage.GetItem("pendingComment"))) ==>
        calls == old(calls) && storage.items == old(storage.items)
      ensures content == "" && !isPreviewMode && !isSignInModalOpen
    {
      var pending := storage.GetItem("pendingComment");
      if Truthy(pending) {
        calls := calls + [Submit(pending.value, username)];
        storage.RemoveItem("pendingComment");
      }
      content := "";
      isPreviewMode := false;
      isSignInModalOpen := false;
    }

    /** The dialog's `onOpenChange`. */
    method SetSignInModalOpen(open: bool)
      modifies this
      ensures isSignInModalOpen == open
      ensures content == old(content) && isPreviewMode == old(isPreviewMode) && calls == old(calls)
    {
      isSignInModalOpen := open;
    }

    /** `handlePreviewToggle`: two toggles give back the mode. */
    method TogglePreview()
      modifies this
      ensures isPreviewMode == !old(isPreviewMode)
      ensures content == old(content) && isSignInModalOpen == old(isSignInModalOpen) && calls == old(calls)
    {
      isPreviewMode := !isPreviewMode;
    }

    /** `handleCancel`: clears the editor, leaves preview mode and tells
        the owner when it listens. A parked comment stays parked. */
    method HandleCancel()
      modifies this
      ensures content == "" && !isPreviewMode && isSignInModalOpen == old(isSignInModalOpen)
      ensures calls == old(calls) + (if hasOnCancel then [Cancel] else [])
    {
      content := "";
      isPreviewMode := false;
      if hasOnCancel {
        calls := calls + [Cancel];
      }
    }
  }

  /** A reader with no stored name submits from a fresh top-level form:
      nothing is posted, and the comment is parked in storage. */
  method SubmitSignedOut(storage: LocalStorage, text: string) returns (form: CommentForm)
    requires "displayName" !in storage.items
    requires !AllWhitespace(text)
    modifies storage
    ensures fresh(form) && form.storage == storage && form.calls == []
    ensures storage.items == old(storage.items)["pendingComment" := text]
  {
    form := new CommentForm(storage, false, None, false);
    form.Input(text);
    form.HandleSubmit();
  }

  /** The pending-comment flow end to end: a reader with no stored name
      submits, signs in anonymously, and the comment is posted exactly
      once, under the name the dialog stored; a second sign-in posts
      nothing more. */
  method PendingCommentFlow(storage: LocalStorage, text: string, typedName: string, uid: string)
    returns (posted: seq<Call>)
    requires "displayName" !in storage.items
    requires !AllWhitespace(text)
    modifies storage
    ensures posted == [Submit(text, AnonymousDisplayName(typedName, uid))]
    ensures storage.items == (old(storage.items) - {"pendingComment"})["displayName" := AnonymousDisplayName(typedName, uid)]
  {
    ghost var initial := storage.items;
    var form := SubmitSignedOut(storage, text);
    var dialog := new SignInForm(storage);
    dialog.TypeUsername(typedName);
    var signedIn := dialog.HandleAnonymousSignIn(Some(uid));
    ghost var name := AnonymousDisplayName(typedName, uid);
    ParkedThenNamed(initial, text, name);
    form.HandleSignIn(signedIn.value.displayName, signedIn.value.provider);
    form.HandleSignIn(signedIn.value.displayName, signedIn.value.provider);
    posted := form.calls;
  }

  /** Parking a comment, storing a name and taking the comment back
      leaves the name stored and no comment parked. */
  lemma ParkedThenNamed(items: map<string, string>, text: string, name: string)
    ensures var named := items["pendingComment" := text]["displayName" := name];
      && "pendingComment" in named && named["pendingComment"] == text
      && named - {"pendingComment"} == (items - {"pendingComment"})["displayName" := name]
  {
  }
}
