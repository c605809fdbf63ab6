// meme_handler::HandleRequest: from a request to the operation on the meme table, and the
// links that the handler's own pages contain.
module MemeDispatch {
  import opened Basics
  import opened Text
  import opened ConfigSyntax
  import opened HandlerPaths
  import opened HttpHeaders
  import opened HttpRequest
  import opened Routing
  import opened ServerState
  import opened ServerMemes
  import MemeForm

  // A configured meme handler, and the codes with which its two page files would be served.
  datatype Handler = Handler(location: string, viewPath: string, newPage: int, editPage: int)

  // The branches in the order of the code; None when a scan overruns its buffer.
  function MemeOp(h: Handler, path: string, body: string): Option<Op> {
    if Find(path, h.location) != 0 then Some(Other(404))
    else if path == "/meme/new" then Some(Other(h.newPage))
    else if Find(path, "/meme/edit?update=") == 0 then Some(EditForm(EditedId(path), h.editPage))
    else if path == "/meme/create" then FormOp(body)
    else if Find(path, h.location + h.viewPath + "?id=") == 0 then ViewOp(h, path)
    else if Find(path, "/meme/list") == 0 then ListOp(h, path)
    else if Find(path, "/meme/delete?id=") == 0 then Some(Delete(DeletedId(path)))
    else Some(Other(404))
  }

  function EditedId(path: string): string
    requires Find(path, "/meme/edit?update=") == 0
  {
    QueryIsFound(path, "/meme/edit", "?update=");
    After(path, "?update=")
  }

  function DeletedId(path: string): string
    requires Find(path, "/meme/delete?id=") == 0
  {
    QueryIsFound(path, "/meme/delete", "?id=");
    After(path, "?id=")
  }

  // The scan of prepare_view_request.
  function ViewOp(h: Handler, path: string): Option<Op> {
    match MemeForm.ScanField(h.location + h.viewPath + "?id=", path)
    case None => Some(Other(400))
    case Some((id, _)) => if MemeForm.Fits(id) then Some(View(id)) else None
  }

  // The scan of prepare_list_request, which leaves the search text empty when it fails.
  function ListOp(h: Handler, path: string): Option<Op> {
    match MemeForm.ScanField(h.location + "/list?query=", path)
    case None => Some(List(""))
    case Some((query, _)) => if MemeForm.Fits(query) then Some(List(MemeForm.FieldText(query))) else None
  }

  // What follows the first mark in a path that starts with `front + mark`.
  lemma QueryIsFound(path: string, front: string, mark: string)
    requires mark != "" && mark[0] !in front && Find(path, front + mark) == 0
    ensures Find(path, mark) == |front|
  {
    hide Find;
    FindAtStart(path, front + mark);
    assert path == front + mark + path[|front + mark|..];
    AfterFinds(front, mark, path[|front + mark|..]);
  }

  // A prefix that ends in "?id=" must end where the only question mark is.
  lemma QueryPrefix(q: string, front: string, id: string)
    requires IsNumber(id) && '?' !in front
    ensures q + "?id=" <= front + "?id=" + id <==> q == front
  {
    var path := front + "?id=" + id;
    assert forall i :: 0 <= i < |path| && path[i] == '?' ==> i == |front|;
    if q + "?id=" <= path {
      assert path[|q|] == (q + "?id=")[|q|] == '?';
      assert q == path[..|q|];
      assert front == path[..|front|];
    }
    if q == front {
      assert path == (q + "?id=") + id;
    }
  }

  // The view branch on a path that ends in the id.
  lemma ViewScansId(h: Handler, id: string)
    requires IsNumber(id)
    ensures ViewOp(h, h.location + h.viewPath + "?id=" + id) == if MemeForm.Fits(id) then Some(View(id)) else None
  {
    hide MemeForm.ScanField, MemeForm.Fits;
    var tag := h.location + h.viewPath + "?id=";
    assert '&' !in id;
    MemeForm.ScanFieldFinds(tag, id, "");
    assert tag + id + "" == tag + id;
  }

  lemma ViewMeans(h: Handler, id: string, body: string)
    requires IsNumber(id) && h.location + h.viewPath == "/meme/view"
    ensures MemeOp(h, "/meme/view?id=" + id, body) == if MemeForm.Fits(id) then Some(View(id)) else None
  {
    hide FormOp, Find, ViewOp, ListOp, After, MemeForm.Fits;
    var path := "/meme/view?id=" + id;
    assert path[6] == 'v';
    var tag := h.location + h.viewPath + "?id=";
    assert tag + id == path && tag == "/meme/view?id=";
    assert h.location <= tag <= path;
    FindAtStart(path, h.location);
    FindAtStart(path, "/meme/edit?update=");
    FindAtStart(path, tag);
    ViewScansId(h, id);
  }

  // The link "view" in the handler's pages leads to the meme exactly when the handler is
  // configured so that its location and view path spell "/meme/view", and the id fits the
  // buffer it is scanned into.
  lemma ViewLinkWorksIff(h: Handler, id: string, body: string)
    requires IsNumber(id)
    ensures MemeOp(h, "/meme/view?id=" + id, body) == Some(View(id)) <==>
              h.location + h.viewPath == "/meme/view" && MemeForm.Fits(id)
  {
    hide FormOp, Find, ViewOp, ListOp, After, MemeForm.Fits;
    var path := "/meme/view?id=" + id;
    var q := h.location + h.viewPath;
    if q == "/meme/view" {
      ViewMeans(h, id, body);
    } else {
      QueryPrefix(q, "/meme/view", id);
      assert path == "/meme/view" + "?id=" + id;
      assert path[6] == 'v';
      FindAtStart(path, "/meme/edit?update=");
      FindAtStart(path, q + "?id=");
      ListIsNoView(h, path);
    }
  }

  lemma ListIsNoView(h: Handler, path: string)
    ensures ListOp(h, path).Some? ==> ListOp(h, path).value.List?
  {
  }

  lemma ViewIsNoDelete(h: Handler, path: string)
    ensures ViewOp(h, path).Some? ==> !ViewOp(h, path).value.Delete?
  {
  }

  // The link "delete" works exactly when the handler is reached by it and has not been
  // configured to view memes there.
  lemma DeleteLinkWorksIff(h: Handler, id: string, body: string)
    requires IsNumber(id)
    ensures MemeOp(h, "/meme/delete?id=" + id, body) == Some(Delete(id)) <==>
              StartsWith("/meme/delete?id=" + id, h.location) && h.location + h.viewPath != "/meme/delete"
  {
    hide FormOp, Find, ViewOp, ListOp, After;
    var path := "/meme/delete?id=" + id;
    var q := h.location + h.viewPath;
    QueryPrefix(q, "/meme/delete", id);
    assert path == "/meme/delete" + "?id=" + id;
    assert path[6] == 'd';
    FindAtStart(path, h.location);
    FindAtStart(path, "/meme/edit?update=");
    FindAtStart(path, q + "?id=");
    FindAtStart(path, "/meme/list");
    FindAtStart(path, "/meme/delete?id=");
    AfterFinds("/meme/delete", "?id=", id);
    ViewIsNoDelete(h, path);
  }

  // The links "edit" and "create" work whenever the handler is reached by them.
  lemma EditAndCreateLinksWork(h: Handler, id: string, body: string)
    requires IsNumber(id)
    ensures StartsWith("/meme/edit?update=" + id, h.location) ==>
              MemeOp(h, "/meme/edit?update=" + id, body) == Some(EditForm(id, h.editPage))
    ensures StartsWith("/meme/create", h.location) ==> MemeOp(h, "/meme/create", body) == FormOp(body)
  {
    hide FormOp, Find, ViewOp, ListOp, After;
    var path := "/meme/edit?update=" + id;
    assert path == "/meme/edit" + "?update=" + id;
    assert path[6] == 'e';
    FindAtStart(path, h.location);
    FindAtStart(path, "/meme/edit?update=");
    AfterFinds("/meme/edit", "?update=", id);
    assert "/meme/create"[6] == 'c' && "/meme/edit?update="[6] == 'e';
    FindAtStart("/meme/create", h.location);
    FindAtStart("/meme/create", "/meme/edit?update=");
  }

  // Whatever else is configured, a handler at "/meme" gets every path below it.
  lemma MemeIsRouted(ss: seq<Stmt>, path: string)
    requires "/meme" in PathsOf(ss) && "/meme/" <= path
    ensures IsShortestMatch(PathsOf(ss).Keys, path, "/meme")
  {
    hide PathsOf;
    PathsAreKeyedByLocation(ss);
    assert "/meme" + "/" <= path;
    forall k | k in PathsOf(ss).Keys && Matches(path, k) && k != "/meme" ensures |"/meme"| < |k| {
      MatchesArePrefixes(path, k, "/meme");
      NoShorterMatch(path, k);
    }
  }

  // There is no slash inside "meme" for a shorter location to end at.
  lemma NoShorterMatch(path: string, k: string)
    requires "/meme/" <= path && k != "" && Matches(path, k)
    ensures |k| >= 5
  {
    var n := if |k| < 5 then |k| else 1;
    assert path[n] == "/meme/"[n] != '/';
    assert (k + "/")[|k|] == '/';
  }

  // ---------------------------------------------------------------------------
  // From the bytes of a request to its operation

  // A configured server, and the codes with which the handler's page files would be served.
  datatype Server = Server(config: seq<Stmt>, newPage: int, editPage: int)

  // The handler that createByName makes from a block of type "meme".
  function HandlerOf(sv: Server, config: seq<Stmt>): Handler {
    Handler(KeyValue(config, "location"), KeyValue(config, "view"), sv.newPage, sv.editPage)
  }

  // The text is a valid request, the routing loop gives it to a meme handler, and that
  // handler makes `op` of it.
  ghost predicate Asks(sv: Server, text: string, op: Op) {
    var r := ParseRequest(text);
    && r.valid
    && exists k :: IsShortestMatch(PathsOf(sv.config).Keys, r.path, k) && PathsOf(sv.config)[k].kind == "meme"
                   && MemeOp(HandlerOf(sv, PathsOf(sv.config)[k].config), r.path, r.body) == Some(op)
  }

  // The request goes to a meme handler.
  ghost predicate IsForMemes(sv: Server, text: string) {
    var r := ParseRequest(text);
    r.valid && exists k :: IsShortestMatch(PathsOf(sv.config).Keys, r.path, k) && PathsOf(sv.config)[k].kind == "meme"
  }

  // The request's operation is the one that the server makes of its bytes; only a meme handler
  // has anything to do with the table, and none of its scans overruns a buffer.
  ghost predicate IsServed(sv: Server, j: Job) {
    if IsForMemes(sv, j.text) then Asks(sv, j.text, j.op) else j.op.Other?
  }

  // The configuration has a meme handler at "/meme" viewing at "/view".
  ghost predicate HasMemes(sv: Server) {
    && "/meme" in PathsOf(sv.config) && PathsOf(sv.config)["/meme"].kind == "meme"
    && KeyValue(PathsOf(sv.config)["/meme"].config, "view") == "/view"
  }

  // The text is a valid request for the path.
  ghost predicate IsFor(text: string, path: string) {
    ParseRequest(text).valid && ParseRequest(text).path == path
  }

  // The bytes of such a request, with any header lines.
  lemma RequestIsFor(verb: string, path: string, version: string, lines: seq<string>, body: string)
    requires IsVerb(verb) && IsVersion(version) && AreLines(lines) && path != "" && ' ' !in path
    ensures var text := verb + " " + path + " " + version + CRLF + (Lines(lines) + CRLF + body);
            IsFor(text, path) && ParseRequest(text).body == body
  {
    hide IsVersion, AreLines, Lines, ReadHeaders, ParseRequest;
    var rest := Lines(lines) + CRLF + body;
    RequestIsRead(verb + " " + path + " " + version + CRLF + rest, verb, path, version, rest);
    ClosedBlockIsExact(lines, body, map[]);
  }

  function MemeHandler(sv: Server): Handler { Handler("/meme", "/view", sv.newPage, sv.editPage) }

  // Under such a configuration only the path and the body of a request below "/meme" matter.
  lemma AsksIff(sv: Server, text: string, path: string, op: Op)
    requires HasMemes(sv) && IsFor(text, path) && "/meme/" <= path
    ensures Asks(sv, text, op) <==> MemeOp(MemeHandler(sv), path, ParseRequest(text).body) == Some(op)
  {
    hide PathsOf, KeyValue, MemeOp, ParseRequest, Matches;
    MemeIsRouted(sv.config, path);
    PathsAreKeyedByLocation(sv.config);
    assert HandlerOf(sv, PathsOf(sv.config)["/meme"].config) == MemeHandler(sv);
  }

  lemma AskedIsForMemes(sv: Server, text: string, op: Op)
    requires Asks(sv, text, op)
    ensures IsForMemes(sv, text)
  {
    hide ParseRequest, IsShortestMatch, MemeOp;
  }

  lemma ServedAsks(sv: Server, j: Job, path: string)
    requires HasMemes(sv) && IsServed(sv, j) && IsFor(j.text, path) && "/meme/" <= path
    ensures Asks(sv, j.text, j.op)
  {
    hide PathsOf, KeyValue, ParseRequest, IsShortestMatch, Asks;
    MemeIsRouted(sv.config, path);
  }

  // A request that is not valid, that no location matches, or that goes to a handler of another
  // kind is served by something that leaves the table alone, and by nothing else.
  lemma ServedElsewhere(sv: Server, j: Job, k: string)
    ensures !ParseRequest(j.text).valid ==> (IsServed(sv, j) <==> j.op.Other?)
    ensures ParseRequest(j.text).valid && IsShortestMatch(PathsOf(sv.config).Keys, ParseRequest(j.text).path, k)
            && PathsOf(sv.config)[k].kind != "meme" ==>
              (IsServed(sv, j) <==> j.op.Other?)
    ensures (forall l :: l in PathsOf(sv.config) ==> !Matches(ParseRequest(j.text).path, l)) ==>
              (IsServed(sv, j) <==> j.op.Other?)
  {
    hide PathsOf, ParseRequest, Matches, MemeOp;
  }

  // Asking for a meme by its id means viewing exactly that id, if it fits the buffer.
  lemma ViewReachesItsMeme(sv: Server, text: string, id: string, op: Op)
    requires HasMemes(sv) && IsNumber(id) && IsFor(text, "/meme/view?id=" + id)
    ensures Asks(sv, text, op) <==> op == View(id) && MemeForm.Fits(id)
  {
    hide Asks, HasMemes, IsFor, MemeOp, ParseRequest, MemeForm.Fits;
    AsksIff(sv, text, "/meme/view?id=" + id, op);
    ViewMeans(MemeHandler(sv), id, ParseRequest(text).body);
  }

  // Asking for its deletion means deleting exactly that id.
  lemma DeleteReachesItsMeme(sv: Server, text: string, id: string, op: Op)
    requires HasMemes(sv) && IsNumber(id) && IsFor(text, "/meme/delete?id=" + id)
    ensures Asks(sv, text, op) <==> op == Delete(id)
  {
    hide Asks, HasMemes, IsFor, MemeOp, ParseRequest;
    AsksIff(sv, text, "/meme/delete?id=" + id, op);
    var h := MemeHandler(sv);
    assert h.location + h.viewPath == "/meme/view";
    DeleteLinkWorksIff(h, id, ParseRequest(text).body);
  }

  // Asking for its edit page means exactly that id.
  lemma EditReachesItsMeme(sv: Server, text: string, id: string, op: Op)
    requires HasMemes(sv) && IsNumber(id) && IsFor(text, "/meme/edit?update=" + id)
    ensures Asks(sv, text, op) <==> op == EditForm(id, sv.editPage)
  {
    hide Asks, HasMemes, IsFor, MemeOp, ParseRequest;
    AsksIff(sv, text, "/meme/edit?update=" + id, op);
    EditAndCreateLinksWork(MemeHandler(sv), id, ParseRequest(text).body);
  }

  // The list page lists everything, or what a search field that fits its buffer asks for.
  lemma ListReachesTheTable(sv: Server, text: string, query: string, op: Op)
    requires HasMemes(sv) && query != "" && '&' !in query
    ensures IsFor(text, "/meme/list") ==> (Asks(sv, text, op) <==> op == List(""))
    ensures IsFor(text, "/meme/list?query=" + query) ==>
              (Asks(sv, text, op) <==> op == List(MemeForm.FieldText(query)) && |query| <= 31)
  {
    hide Asks, HasMemes, IsFor, MemeOp, ParseRequest, MemeForm.FieldText;
    if IsFor(text, "/meme/list") {
      AsksIff(sv, text, "/meme/list", op);
      ListMeans(MemeHandler(sv), query, ParseRequest(text).body);
    }
    if IsFor(text, "/meme/list?query=" + query) {
      AsksIff(sv, text, "/meme/list?query=" + query, op);
      ListMeans(MemeHandler(sv), query, ParseRequest(text).body);
    }
  }

  lemma ListMeans(h: Handler, query: string, body: string)
    requires h.location == "/meme" && h.viewPath == "/view" && query != "" && '&' !in query
    ensures MemeOp(h, "/meme/list", body) == Some(List(""))
    ensures MemeOp(h, "/meme/list?query=" + query, body) ==
              if |query| <= 31 then Some(List(MemeForm.FieldText(query))) else None
  {
    hide FormOp, Find, ViewOp, After, MemeForm.FieldText, MemeForm.ScanField;
    var bare, full := "/meme/list", "/meme/list?query=" + query;
    assert h.location + h.viewPath == "/meme/view" && h.location + "/list?query=" == "/meme/list?query=";
    assert h.location + h.viewPath + "?id=" == "/meme/view?id=";
    assert full[6] == 'l' && bare[6] == 'l' && "/meme/new"[6] == 'n' && "/meme/create"[6] == 'c';
    IsListPath(bare);
    IsListPath(full);
    MemeForm.ScanFieldFinds("/meme/list?query=", query, "");
    assert full + "" == full;
    assert !("/meme/list?query=" <= bare);
    NoField("/meme/list?query=", bare);
  }

  // What is answered without the table: the page of a new meme, a view of no id, and every path
  // that none of the tests knows.
  lemma FixedPages(h: Handler, path: string, body: string)
    requires h.location == "/meme" && h.viewPath == "/view"
    ensures MemeOp(h, "/meme/new", body) == Some(Other(h.newPage))
    ensures "/meme/view?id=&" <= path || path == "/meme/view?id=" ==> MemeOp(h, path, body) == Some(Other(400))
    ensures path != "/meme/new" && path != "/meme/create" && !("/meme/edit?update=" <= path)
            && !("/meme/view?id=" <= path) && !("/meme/list" <= path) && !("/meme/delete?id=" <= path) ==>
              MemeOp(h, path, body) == Some(Other(404))
  {
    hide FormOp, Find, ListOp, After, EditedId, DeletedId, MemeForm.Fits;
    var view := h.location + h.viewPath + "?id=";
    assert view == "/meme/view?id=";
    FindAtStart("/meme/new", "/meme");
    FindAtStart(path, "/meme");
    FindAtStart(path, "/meme/edit?update=");
    FindAtStart(path, view);
    FindAtStart(path, "/meme/list");
    FindAtStart(path, "/meme/delete?id=");
    if "/meme/view?id=&" <= path || path == view {
      assert path[6] == 'v';
      assert path[|view|..] == "" || path[|view|..][0] == '&';
    }
  }

  // What the tests before the list branch find in a path of the list page.
  lemma IsListPath(path: string)
    requires "/meme/list" <= path
    ensures Find(path, "/meme") == 0 && Find(path, "/meme/list") == 0
    ensures Find(path, "/meme/edit?update=") != 0 && Find(path, "/meme/view?id=") != 0
  {
    hide Find;
    assert path[6] == 'l';
    FindAtStart(path, "/meme");
    FindAtStart(path, "/meme/list");
    FindAtStart(path, "/meme/edit?update=");
    FindAtStart(path, "/meme/view?id=");
  }

  lemma NoField(tag: string, s: string)
    requires !(tag <= s)
    ensures MemeForm.ScanField(tag, s) == None
  {
  }

  predicate IsFilledIn(row: Row) {
    && MemeForm.IsText(row.template) && MemeForm.IsText(row.top) && MemeForm.IsText(row.bottom)
    && row.template != "Choose..."
  }

  // The body a browser posts for a new meme, or for a new version of an old one.
  function PostedBody(row: Row, update: Option<string>): string
    requires IsFilledIn(row)
  {
    var body := MemeForm.FormBody(row.template, row.top, row.bottom);
    if update.Some? then body + "&update=" + update.value else body
  }

  predicate BodyFits(row: Row, update: Option<string>)
    requires IsFilledIn(row)
  {
    MemeForm.TextsFit(row.template, row.top, row.bottom) && (update.Some? ==> MemeForm.Fits(update.value))
  }

  // Posting the form means creating exactly the meme typed into it, or changing the one with
  // the given id to it, if the fields fit the buffers.
  lemma PostReachesTheTable(sv: Server, text: string, row: Row, update: Option<string>, op: Op)
    requires HasMemes(sv) && IsFilledIn(row) && (update.Some? ==> MemeForm.IsRaw(update.value))
    requires IsFor(text, "/meme/create") && ParseRequest(text).body == PostedBody(row, update)
    ensures Asks(sv, text, op) <==>
              op == (if update.Some? then Edit(update.value, row) else Create(row)) && BodyFits(row, update)
  {
    hide Asks, HasMemes, IsFor, MemeOp, ParseRequest, MemeForm.FormBody, MemeForm.TextsFit, MemeForm.Fits,
         MemeForm.Decide, MemeForm.IsText, MemeForm.IsRaw;
    AsksIff(sv, text, "/meme/create", op);
    EditAndCreateLinksWork(MemeHandler(sv), "1", ParseRequest(text).body);
    if update.Some? {
      MemeForm.FitsMeans(update.value);
      MemeForm.UpdateMemeRoundTrip(row.template, row.top, row.bottom, update.value);
    } else {
      MemeForm.NewMemeRoundTrip(row.template, row.top, row.bottom);
    }
  }
}
