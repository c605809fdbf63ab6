# A verified model of the Bingit web server

This project models, in Dafny, the parts of a small C++ web server where its logic lives, and
proves what those parts promise:

- **the configuration language** - the character-level tokenizer, the stack-driven parser that
  builds a tree of objects in place, the printer, and the queries on the tree
  (`ConfigSyntax`, `ConfigLexer`, `ConfigMachine`, `ConfigParser`, `ConfigPrinter`,
  `ConfigLayout`, `ConfigStability`, `HandlerPaths`);
- **requests and replies** - reading a request line and its header block, writing a reply, and
  taking the bytes of a connection apart again (`Text`, `HttpHeaders`, `HttpRequest`,
  `HttpReply`);
- **routing** - from the text of the configuration file to the routing table, from a path to a
  handler, and the location checks the handlers rely on (`Routing`, `ServerConfig`);
- **shared state** - any number of threads running `handle_read` against two locks, two counter
  maps and the meme table, over every interleaving (`ServerState`, `ServerCounters`,
  `ServerMemes`, `ServerRuns`, `ServerAnswers`, `ServerLosses`, `ServerReport`);
- **meme requests** - splitting and decoding a form body, choosing the operation a request asks
  for, and from the bytes of one request to the answer to a later one (`MemeForm`,
  `MemeDispatch`, `MemeRuns`).

`dafny verify dfyconfig.toml` checks the whole project.

## How the model is built

Code that changes things step by step is imperative here too. `ConfigParser.Parse` works on
objects: a stack of pointers, statements appended to the config on top, child configs attached
to the statement below. A ghost set holds every object that is closed; nothing in it is ever
written again, so what a closed object stands for is settled once. The method is proved against
the value-level machine of `ConfigMachine`, and the machine against the grammar
`config := stmt*`, `stmt := WORD+ (';' | '{' stmt+ '}')`. A derivation of that grammar is a
well-formed tree, and the sentence it derives is the tree's `Yield`.

The threads are a state machine over program counters. One step is one access to shared state;
loading a counter and storing it back are two steps, so the absence of lost updates is a
consequence of the lock and not of the model. A schedule is any sequence of thread numbers.

Where the code and its documentation differ, the model follows the code:

- A bare word cut off by the end of the file is dropped, so `a; b` is accepted as `a;`.
- `\r` does not end a bare word, although it is blank space before one, and neither does `#`.
- `get_handler_paths` looks a handler's *type* up in the map of *locations*. A handler whose
  type is spelled like an earlier location is dropped; `HandlerPaths` says exactly when.
- The routing loop takes the first match in key order, which is the *shortest* matching
  location; a location below another one is never reached.
- A header block that just stops loses the last character of its last line.
- The texts of a meme go into its SQL statement as they are, between quotes. A doubled quote is
  stored as one, and a single one breaks the statement after the id has been handed out.
- Not every text is then a literal or an error, and not every id is a number. `IsModelled` says
  for which requests the effect of the statement is known: texts that are literals or leave the
  last literal open, ids that are plain digits or hold none. Any other statement may leave any
  table behind in the model, so what is said of the table is said of runs of modelled requests,
  while locks, counters, ids handed out and progress are in order in all runs.
- A form field goes into a buffer of `sizeof(std::string)` characters, whatever its length. A
  longer field is an overrun, about which nothing is claimed; the results say when none occurs.
- Port 65535 narrows to -1 in the `short` field and reads as "no port".
- The comment in `validate_http_version` asks for eight characters; the code needs `HTTP/`, a
  number, one dot and a number, which is what is proved.

Characters are bytes. Strings handed over as C strings hold no NUL. Integers are unbounded
except for the port.

## Model

| member | source | states |
|---|---|---|
| `ConfigLexer.NextTokenIsTheToken` | src/config_parser.cc:164-255 | the tokenizer's result is the one and only token at the front of the input after blanks: brace, semicolon, quoted word with its quotes, bare word that is followed by a terminator, comment up to a newline, or the end |
| `ConfigLexer.WordEndsOrGoesOn` | src/config_parser.cc:234-243 | after a plain word a space, tab, newline, semicolon or brace ends it and stays unread; any other character, `\r` and `#` included, joins it |
| `ConfigLexer.WordAtTheEnd` | src/config_parser.cc:247-254 | a plain word at the end of the file is no token |
| `ConfigLexer.BlanksAndPunctuation` | src/config_parser.cc:179-208 | space, tab, `\n` and `\r` are skipped; a brace or semicolon is a token by itself |
| `ConfigLexer.QuotesAreKept` | src/config_parser.cc:213-227 | either quote runs to the next of its kind, whatever lies between, and both are kept; unclosed it is an error |
| `ConfigLexer.CommentsRunToTheLineEnd` | src/config_parser.cc:228-233 | a comment takes its line end, `\n` or `\r`, with it, or runs to the end of the file |
| `ConfigLexer.TerminalsAreWords` | src/config_parser.cc:190-243 | every word handed to the parser is a bare word or a quoted word |
| `ConfigLexer.NextToken` | src/config_parser.cc:164-255 | every call that is not at the end of the file consumes input |
| `ConfigParser.ParseToken` | src/config_parser.cc:164-255 | the loop over the stream computes that token and leaves exactly the text after it unread |
| `ConfigMachine.ParseIsTheGrammar` | src/config_parser.cc:257-374 | parsing succeeds with a tree exactly when the whole text lexes cleanly and the tree is a derivation of its comment-free tokens |
| `ConfigMachine.ParseAccepts` | src/config_parser.cc:257-374 | parsing succeeds exactly when some derivation exists |
| `ConfigMachine.DerivationIsUnique` | src/config_parser.cc:257-374 | the grammar is unambiguous |
| `ConfigMachine.StepKeepsInv` | src/config_parser.cc:287-345 | every accepted token keeps the stack in order: height 1 + starts - ends, every level below the top ends in an open childless statement, closed statements well formed, the top as the last token says |
| `ConfigMachine.RunKeepsInv` | src/config_parser.cc:259-368 | so does every sequence of tokens |
| `ConfigMachine.StepIsDefined` | src/config_parser.cc:297-328 | in every reachable state a word is always taken, a semicolon and an opening brace exactly after a word, a closing brace exactly after a whole statement with a block open; the end of the file is good exactly after a whole statement or nothing, with every block closed; and the stack holds what the code reaches for |
| `ConfigMachine.StepSpells` | src/config_parser.cc:287-345 | the stack always spells exactly the tokens read so far |
| `ConfigMachine.RunStmts` | src/config_parser.cc:259-368 | the machine follows every derivation and appends its statements to the top level |
| `ConfigStability.ClosedStatementsStay` | src/config_parser.cc:259-368 | a statement that is closed, at any address in the open levels and the blocks below them, keeps its address and its value through every further sequence of tokens, and stays closed |
| `ConfigStability.ClosedStatementsReachTheTree` | src/config_parser.cc:259-374 | if the text is accepted, the statement stands at that address in the resulting tree |
| `ConfigStability.StatementsAreClosed` | src/config_parser.cc:259-368 | while the parse goes on the closed statements of a level are all but an open last one |
| `ConfigStability.EveryStatementIsClosed` | src/config_parser.cc:259-374 | in a finished tree every statement, at any depth, has its address and is closed |
| `ConfigMachine.ParseFromTurn` | src/config_parser.cc:265-367 | one turn of the loop, for every kind of token |
| `ConfigMachine.ReadOn` | src/config_parser.cc:265-367 | the loop takes in the tokens in order and stops at the end or at the first token without a transition |
| `ConfigMachine.AtEndIsLongest` | src/config_parser.cc:295-345 | what the loop has taken in when it stops is the longest front of the tokens it can take in |
| `ConfigParser.Parse` | src/config_parser.cc:257-374 | the in-place parser returns true exactly on texts of the language, what it appends to the given config stands for the text's tree, statements already there are untouched, and it terminates; on a rejected text the objects stand for exactly the tokens before the bad one |
| `ConfigParser.StartStatement` | src/config_parser.cc:295-301 | the first word of a statement adds a new object to the top config and to the spine of open statements |
| `ConfigParser.AddToStatement` | src/config_parser.cc:300-301 | a further word changes the open statement only |
| `ConfigParser.OpenBlock` | src/config_parser.cc:325-328 | the new config is the child of the open statement below it |
| `ConfigParser.SpineSemi` | src/config_parser.cc:309-316 | a semicolon closes the open statement |
| `ConfigParser.SpineClose` | src/config_parser.cc:330-345 | a closing brace turns the top level into the block of the statement below |
| `ConfigParser.NginxConfig.ToString` | src/config_parser.cc:21-29 | the loop over an object tree prints what `Print` says of its value |
| `ConfigParser.NginxConfigStatement.ToString` | src/config_parser.cc:106-137 | likewise for a statement: indentation, words, block or semicolon |
| `ConfigParser.NginxConfig.GetKeyValue` | src/config_parser.cc:54-69 | the loop finds the value of the key in the object tree |
| `ConfigParser.NginxConfig.GetPort` | src/config_parser.cc:31-52 | the loop finds the configured port, -1 when there is none or it is no number |
| `ConfigParser.NginxConfig.GetHandlerPaths` | src/config_parser.cc:71-104 | the recursion over objects builds the table `Flatten` says |
| `ConfigParser.NginxConfigStatement.AddHandlerPaths` | src/config_parser.cc:75-102 | one statement's part of it, with a copy of the handler's block |
| `ConfigPrinter.PrintThenParse` | src/config_parser.cc:21-29 | printing any producible tree at any depth and parsing the text gives the tree back |
| `ConfigPrinter.IndentIsSpaces` | src/config_parser.cc:109-112 | two spaces a level, nothing below level one |
| `ConfigPrinter.PrintedPair` | src/config_parser.cc:106-137 | the printed characters of a two-word statement, without a block and with any block |
| `ConfigPrinter.PrintedWords` | src/config_parser.cc:113-120 | one space between any two words |
| `ConfigPrinter.ParseImage` | src/config_parser.cc:106-137 | a tree can come out of parsing exactly when it is well formed and its words are words of the language |
| `ConfigPrinter.NormaliseIsCanonical` | src/config_parser.cc:106-137 | print-after-parse is idempotent, keeps the tree, and two accepted texts share a normal form exactly when they have the same tree |
| `ConfigLayout.FillerIsNothingIff` | src/config_parser.cc:164-255 | filling in blanks and comments where any `ParseToken` call begins leaves the tokens of any text alone exactly when the call does not follow a bare word or the filling starts with a character that ends one |
| `ConfigLayout.PiecesAre` | src/config_parser.cc:182-187 | the filling is made of the four blanks and of comments with either line end |
| `ConfigLayout.CallsFollow` | src/config_parser.cc:265-267 | calls begin at the front and wherever a call that was not the last one stopped |
| `ConfigLayout.LayoutIsMeaninglessIff` | src/config_parser.cc:167-280 | likewise for the tree of any accepted text |
| `ConfigLayout.CarriageReturnIsNotLayout` | src/config_parser.cc:235-241 | after any bare word, a carriage return becomes part of the word |
| `ConfigLayout.LastWordIsLostIff` | src/config_parser.cc:247-254 | an accepted text loses its last word exactly when its last `ParseToken` call meets the end with a bare word in hand: then, and only then, the same text with a newline after it is rejected; its tokens are those of the text and the word |
| `ConfigLayout.TrailingWordIsDropped` | src/config_parser.cc:247-254 | any printed tree followed by any bare word is accepted as the tree alone |
| `HandlerPaths.KeyValueIsFirst` | src/config_parser.cc:57-67 | the first two-word statement with that key and no block gives the value |
| `HandlerPaths.KeyValueIsNone` | src/config_parser.cc:68 | no such statement gives the empty value |
| `HandlerPaths.PortIsFirst` | src/config_parser.cc:31-52 | the first two-word `port` statement, with or without a block, gives the port, -1 when it is no number |
| `HandlerPaths.PortIsNone` | src/config_parser.cc:51 | no such statement gives -1 |
| `HandlerPaths.PathsAreKeyedByLocation` | src/config_parser.cc:71-104 | in the table of any configuration every key is non-empty and is the `location` of its own block |
| `HandlerPaths.FlattenRegisters` | src/config_parser.cc:71-104 | the recursion registers the outermost handler blocks in reading order |
| `HandlerPaths.SitesOfOne` | src/config_parser.cc:78-102 | a two-word `handler` block counts by its location, if it has one, and is not looked into; every other block is |
| `HandlerPaths.FlattenFindsTheSites` | src/config_parser.cc:71-104 | if no handler's type is an earlier location, the table is every such block's location, the last one winning |
| `HandlerPaths.LastKeptWins` | src/config_parser.cc:86-96 | under each location the table holds the last handler that was not dropped, and nothing exactly when all were |
| `HandlerPaths.FlattenFindsTheSitesIff` | src/config_parser.cc:71-104 | for any configuration the table is the expected one exactly when, location by location, the last handler is like the last one that was not dropped |
| `HandlerPaths.DistinctSitesAreFoundIff` | src/config_parser.cc:71-104 | with distinct locations, exactly when no handler's type is an earlier location |
| `HandlerPaths.DropsOnlyOnClash` | src/config_parser.cc:88-96 | for any configuration, the dropping branch is never taken exactly when no handler's type is an earlier location |
| `HandlerPaths.AHandlerCanBeLost` | src/config_parser.cc:88-96 | a configuration that loses a handler this way |
| `HandlerPaths.LastWinsIsLastWins` | src/config_parser.cc:91 | what "the last one wins" means, location by location |
| `Routing.Route` | src/session.cc:191-208 | scanning the table in key order yields the shortest location that the path goes on after with nothing or with a slash, and nothing exactly when there is none |
| `Routing.MatchesIff` | src/session.cc:200-201 | a location matches exactly when the path is the location, or the location and then a slash and anything |
| `Routing.LocationGetsItself` | src/session.cc:191-208 | a location that lies below no other one gets the request for exactly itself |
| `Routing.LocationIsReachedIff` | src/session.cc:191-208 | some valid request text reaches a location exactly when it is configured, holds no space, and does not lie below another configured one |
| `Routing.MapOrderExists` | src/session.cc:191 | every table has a walking order |
| `Routing.RoutedRequestFitsHandler` | src/session.cc:200-218 | for any configuration and any routed request the handler's own location starts the path, the proxy substring is in range, and the path is the location plus a rest that is empty or starts with a slash |
| `Text.FindAtStart` | src/static_handler.cc:57-62 | `find` gives position 0 exactly for a prefix |
| `Routing.StaticHandler.Target` | src/static_handler.cc:56-72 | the check passes exactly when the path is the location followed by some rest, and then the file is the root followed by that rest; otherwise it is the root alone |
| `Routing.ServeStatic` | src/static_handler.cc:57-72 | after routing the double check always passes |
| `Routing.FileRoot` | src/static_handler.cc:9-42 | the directory a handler serves from, by the values of both `root` keys |
| `Routing.ServerRoot` | src/config_params.cc:15-29 | the server root always ends in a slash |
| `Routing.Narrow` | src/config_params.cc:14 | assignment to the 16-bit field keeps the value modulo 65536 |
| `Routing.ListensOnConfiguredPort` | src/server.cc:48-55 | the server listens on its configured port exactly when that lies between 1 and 65534, refuses exactly when it is 65535 modulo 65536, and leaves the choice to the system exactly when it is 0 modulo 65536 |
| `Routing.HighestPortIsRefused` | src/server.cc:48-51 | the configuration `port 65535;` gets no server |
| `ServerConfig.ConfigParams.FromConfig` | src/config_params.cc:10-30 | port, server root and routing table are those of the tree the objects stand for |
| `ServerConfig.SetConfigParams` | src/server.cc:161-175 | from text to parameters: a rejected text leaves port -1 and no handlers, an accepted one gives its tree's parameters and a table keyed by location |
| `HttpHeaders.ReadHeaderBlock` | src/session.cc:134-160 | the header loop computes `ReadHeaders` |
| `HttpHeaders.ReadLine` | src/session.cc:136-146 | the inner loop reads up to the CRLF and shortens the rest |
| `HttpHeaders.HeaderIsAdded` | src/session.cc:148-158 | the name is what stands before the first colon, the value what follows, trimmed; a line without a colon adds nothing |
| `Text.TrimIsExact` | src/session.cc:155-156 | trimming takes exactly the blanks of the C locale off both ends |
| `HttpHeaders.ClosedBlockIsExact` | src/session.cc:134-160 | for a block closed by an empty line the headers are the last-wins fold of its lines and the body is what follows |
| `HttpHeaders.OpenBlockLosesACharacter` | src/session.cc:134-160 | for a block that just stops, the last line loses its last character and there is no body |
| `HttpHeaders.EveryTextIsABlock` | src/session.cc:134-160 | every text is one or the other |
| `HttpHeaders.BlockIsUnique` | src/session.cc:134-160 | in only one way |
| `HttpHeaders.LinesReadExactly` | src/session.cc:134-160 | the lines are read as written exactly when the block is closed or its last line is finished; the headers are the last-wins fold of the lines read and the body is that of the block |
| `HttpRequest.ValidateHttpVersion` | src/session.cc:38-60 | true exactly for `HTTP/` digits `.` digits |
| `HttpRequest.ParseRequestLine` | src/session.cc:62-164 | the loops compute `ParseRequest` |
| `HttpRequest.RequestIsValidIff` | src/session.cc:62-164 | valid exactly when the text starts with GET or POST, a space, a path without spaces, a space, `HTTP/` digits `.` digits and CRLF; anything else is the one invalid request |
| `HttpRequest.TypedIsRead` | src/session.cc:62-164 | either verb, any such path and version: the request is valid with exactly these fields |
| `HttpRequest.RequestIsRead` | src/session.cc:62-164 | the fields hold that split, and headers and body come from what follows |
| `HttpRequest.RequestFormIsUnique` | src/session.cc:75-119 | the split is unique |
| `HttpRequest.EmptyPathMeansInvalid` | src/session.cc:73-106 | a request has an empty path exactly when it is invalid |
| `HttpReply.ConstructHttpResponse` | src/reply.cc:29-42 | the loop writes status line, header lines, empty line and content |
| `HttpReply.HeadersRoundTrip` | src/reply.cc:35-39 | for every walking order, the request header loop reads a written block back as the same map with the content as body, given colon-free, CRLF-free names and trimmed, CRLF-free values |
| `HttpReply.StatusLineIsRead` | src/reply.cc:31-33 | the status line gives version, code and message back |
| `HttpReply.KnownStatusLines` | src/reply.cc:16-33 | the first line for 200, 400 and 404 |
| `HttpReply.OtherStatusLines` | src/reply.cc:24-33 | the first line for every other code |
| `HttpReply.InvalidRequestIsAnswered` | src/session.cc:291-304 | every byte of the answer to a text that is no request |
| `Text.DecIsDecimal` | src/reply.cc:32 | numbers are written in decimal digits without leading zeros |
| `HttpReply.ReplyIsRead` | src/reply.cc:29-42 | a reader using the first empty line and Content-Length takes exactly one reply off the front of any stream |
| `HttpReply.StreamIsRead` | src/reply.cc:29-42 | and takes any sequence of replies apart with nothing left |
| `HttpReply.SplitIsUnique` | src/reply.cc:29-42 | two conversations with the same bytes have the same replies |
| `HttpReply.HandlerReplyIsFramed` | src/meme_handler.cc:157-160 | a reply made the way every handler makes one says its own length |
| `HttpReply.MimeTypesAreValues` | src/static_handler.cc:74-110 | the content types of the handlers can be carried by a header |
| `HttpReply.RespondIsFramed` | src/session.cc:184-224 | so does every reply to every request text, since only validated versions reach the status line |
| `HttpReply.ConnectionIsFramed` | src/session.cc:243-281 | whatever requests arrive on a connection and whatever the handlers answer, the bytes written split back into exactly the replies |
| `ServerState.StepKeepsLocks` | src/session.cc:213-260 | every step keeps: a thread owns a lock exactly while it is inside it |
| `ServerState.PcLocks` | src/session.cc:213-260 | a thread takes only a free lock and gives back only its own |
| `ServerState.LocksExclude` | src/meme_handler.cc:190-196 | each lock has at most one holder and nobody holds both |
| `ServerCounters.StepKeepsCounters` | src/session.cc:225-241 | every step keeps: each key's count is its number of occurrences, no loaded value goes stale, the two logs differ by one exactly while someone is between the updates |
| `ServerCounters.TotalsAgree` | src/session.cc:225-241 | both maps add up to the requests counted, the code counts one short exactly while a thread is between the updates, never when `mtx` is free |
| `ServerCounters.EmptyPathCountsInvalid` | src/session.cc:221-232 | the count under the empty path is the number of invalid requests |
| `ServerState.BrokenIsNoLiteral` | src/meme_handler.cc:307 | texts that surely break their statement off, by an odd number of quotes among harmless characters, are no literals |
| `ServerMemes.StepKeepsIds` | src/meme_handler.cc:300-303 | every step, whatever its statement, keeps: the k-th create got id k, and a thread about to insert carries the id handed out last |
| `ServerMemes.StepKeepsMemes` | src/meme_handler.cc:298-325 | every step with a modelled statement keeps: every id whose insert is over is in exactly one of the table, the deleted and the failed ids, and the table shows what the changes left |
| `ServerMemes.UnmodelledKeepsIff` | src/meme_handler.cc:477-492 | a statement that is not modelled keeps the table in order exactly when it leaves it alone |
| `ServerState.NotModelled` | src/meme_handler.cc:319-323 | requests outside the model: a decimal id, a column name as id, a text with two quotes apart |
| `ServerState.RowIsStoredIff` | src/meme_handler.cc:307 | a row is stored as typed exactly when it holds no quote |
| `ServerState.LiteralUndoublesIff` | src/meme_handler.cc:307 | a text is a literal of exactly the text with its doubled quotes made single |
| `ServerState.HarmlessIsHarmless` | src/meme_handler.cc:307 | which characters may stand beside a quote in texts that surely break off |
| `ServerState.BreaksOffIff` | src/meme_handler.cc:307 | texts surely break off when they hold an odd number of quotes and no other character than these |
| `ServerState.ModelledIff` | src/meme_handler.cc:307-323 | which requests are modelled, character by character: an update needs a plain number, any other id is one, or holds no digit, or breaks off; texts have every quote doubled or break off |
| `ServerState.KeyIsValue` | src/server.cc:106 | two numbers are the same key exactly when they have the same value, leading zeros or not |
| `ServerMemes.InsertSucceedsIff` | src/meme_handler.cc:300-309 | an insert's id is new, and a modelled one succeeds exactly when its texts are SQL literals; otherwise it answers 404 and the id is used up without a row |
| `ServerMemes.CollisionIsRefused` | src/server.cc:105-106 | an insert that did meet a row with its id would answer 404 and change nothing |
| `ServerMemes.IssuedKey` | src/meme_handler.cc:302-303 | the id handed out names its own row when it is sent back as text |
| `ServerMemes.ViewSeesLastWrite` | src/meme_handler.cc:360-385 | as long as the table is in order, a view of a number, compared by value, finds the meme exactly when the last change to that number left a row there |
| `ServerMemes.DeletedIsNotFound` | src/meme_handler.cc:360-383 | a deleted id is answered with 404 and an edit does not revive it |
| `ServerMemes.DeletedForGood` | src/meme_handler.cc:534-557 | no step takes an id off the deleted ones |
| `ServerMemes.EmptyFieldChangesNothing` | src/meme_handler.cc:286-294 | a body with an empty field that is read without an overrun gives 400 and leaves table and id counter alone |
| `ServerMemes.NewMemeIsStored` | src/meme_handler.cc:298-309 | the texts of a modelled form fit the buffers and are, read as literals, the row under the fresh id; when they break off there is no row |
| `ServerRuns.EveryRunKeepsInv` | src/server_main.cc:59-76 | after every schedule of any number of threads with any requests at all, locks and counters are in order and ids were handed out in order |
| `ServerRuns.EveryRunKeepsTable` | src/meme_handler.cc:298-345 | after every schedule of any number of threads with modelled requests, so is the meme table |
| `ServerLosses.FinishedRunLosesIff` | src/meme_handler.cc:300-334 | a run of modelled requests that has answered them all has lost an id exactly when one of them was a valid create with a text that is no literal, in whatever order the threads ran |
| `ServerLosses.RunLosesIff` | src/meme_handler.cc:300-334 | some run of given modelled requests loses an id exactly when there is such a create among them |
| `ServerLosses.NoIdIsLost` | src/meme_handler.cc:300-309 | without one, the ids whose insert is over are at every moment those in the table and those deleted |
| `ServerLosses.FinishedRunTakesOneIdEach` | src/meme_handler.cc:300-303 | a finished run has handed out exactly one id for each valid create, and when the requests are modelled each of them is in the table, deleted or lost |
| `MemeRuns.BrokenPostLosesAnId` | src/meme_handler.cc:300-334 | every finished run of the server in which a form was posted whose texts break off has lost an id |
| `MemeRuns.ApostropheLosesAnId` | src/meme_handler.cc:307-308 | the bytes of a form with the top text `it's` are such a request |
| `ServerRuns.DeletedMemeStaysDeleted` | src/meme_handler.cc:534-557 | in a run of modelled requests, once deleted, an id is never in the table and never handed out again, however the run goes on |
| `ServerRuns.StepConserves` | src/session.cc:225-241 | no step loses a request or counts it twice |
| `ServerRuns.FinishedRunCountsEverything` | src/session.cc:225-241 | when a run is over, the requests counted by url are those received, and as many were counted by code |
| `ServerAnswers.CodeIsKept` | src/session.cc:213-240 | from the reply to the code counter the code a thread carries never changes, and that code is what is counted |
| `ServerAnswers.TableAnswers` | src/meme_handler.cc:170-560 | the code of every modelled statement on the table: an edit page or a view depends on the row, an update, a delete and a list on their texts alone |
| `ServerAnswers.EveryRunCountsItsAnswers` | src/session.cc:225-241 | in every run the codes counted are, in order, those of the replies made, each reply belongs to the request counted by url at the same place, and each is a right answer: 400 when invalid, what its handler decided otherwise |
| `ServerAnswers.FinishedRunCountsCodes` | src/session.cc:225-241 | when a run is over and every request has only one right answer, the codes counted are exactly those answers, in whatever order the threads ran |
| `ServerAnswers.OtherRequestsAreCounted` | src/session.cc:225-241 | in particular 400 for every invalid request and the handler's own code for every request answered without the table |
| `ServerRuns.SomeoneCanStep` | src/session.cc:213-260 | no deadlock |
| `ServerRuns.StepWorks` | src/session.cc:166-266 | every step leaves less to do |
| `ServerRuns.CanFinish` | src/session.cc:166-266 | from every reachable state the run can go on to answer every request |
| `ServerReport.StatusReport` | src/status_handler.cc:18-42 | the loops compute the total and write the per-path, per-code and per-handler lines |
| `ServerReport.LinesSay` | src/status_handler.cc:28-42 | the characters of each kind of line |
| `ServerReport.ReportIsConsistent` | src/status_handler.cc:23-37 | in a snapshot at any moment of any run the total is the sum of the per-path lines, excludes the request being served, and equals the sum of the per-code lines exactly unless another thread is between its two updates |
| `ServerReport.PassBounds` | src/status_handler.cc:23-37 | a pass that reads key by key while others count adds up to no less than what was counted at its start and no more than at its end |
| `ServerReport.WalksArePasses` | src/status_handler.cc:23-37 | walking the map that is there at the start is such a pass |
| `ServerReport.TornReportIsOrdered` | src/status_handler.cc:18-38 | the report as it is read, key by key without the lock, with other threads at work between any two reads and new keys turning up: the total is at most the sum of the per-path lines, which is at most one more than the sum of the per-code lines; all agree when nothing was counted meanwhile and nobody was between its updates when the last pass began |
| `MemeForm.ReplacePlus` | src/meme_handler.cc:252-266 | the in-place loop turns every plus into a space |
| `MemeForm.EscapesMean` | src/meme_handler.cc:268-272 | an escape of two hexadecimal digits in either case stands for its byte, and any other character for itself |
| `MemeForm.NoEscape` | src/meme_handler.cc:268-272 | a percent sign without two such digits stands for itself |
| `MemeForm.NulEndsTheField` | src/meme_handler.cc:274-277 | an encoded NUL ends the text |
| `MemeForm.FormIsDecided` | src/meme_handler.cc:236-325 | what becomes of any body with the three fields: an overrun exactly when a field does not fit its buffer, otherwise the decision on the decoded texts and the id to update |
| `MemeForm.FormIsAcceptedIff` | src/meme_handler.cc:236-294 | a body is accepted exactly when it has the three fields in order, each fitting its buffer, with non-empty texts and a chosen picture |
| `MemeForm.EmptyFieldIsRefused` | src/meme_handler.cc:286-294 | an empty field, whichever it is, is a bad request, unless a field read before it overruns its buffer |
| `MemeForm.UnchosenIsRefused` | src/meme_handler.cc:286-294 | so is the entry that stands for no picture |
| `MemeForm.NewMemeRoundTrip` | src/meme_handler.cc:241-298 | any three non-empty texts, form-encoded and read back, are recovered exactly when their encodings have at most 31 characters |
| `MemeForm.UpdateMemeRoundTrip` | src/meme_handler.cc:246-325 | likewise with an id to update |
| `MemeForm.EncodedCharIs` | src/meme_handler.cc:268-272 | how a form writes each byte: itself, a plus or an escape |
| `MemeDispatch.ViewLinkWorksIff` | src/meme_handler.cc:141-144 | the view link in the handler's pages reaches the meme exactly when location and view path spell `/meme/view` and the id fits its buffer |
| `MemeDispatch.DeleteLinkWorksIff` | src/meme_handler.cc:149-154 | the delete link works exactly when it reaches the handler and memes are not viewed there |
| `MemeDispatch.EditAndCreateLinksWork` | src/meme_handler.cc:131-140 | the edit and create links work whenever they reach the handler |
| `MemeDispatch.FixedPages` | src/meme_handler.cc:128-154 | the page of a new meme, 400 for a view of no id, 404 for every path that no test knows |
| `MemeDispatch.MemeIsRouted` | src/session.cc:191-208 | whatever else is configured, a handler at `/meme` gets every path below it |
| `MemeDispatch.RequestIsFor` | src/session.cc:62-164 | the bytes of a request with any header lines are read as that path and body |
| `MemeDispatch.AsksIff` | src/handler_manager.cc:42-47 | with a handler of type `meme` at `/meme`, whatever else is configured, the operation of a valid request below it is what that handler makes of its path and body |
| `MemeDispatch.ServedElsewhere` | src/handler_manager.cc:17-56 | a request that is not valid, that no location matches, or that goes to a handler of another type leaves the meme table alone |
| `MemeDispatch.ViewReachesItsMeme` | src/meme_handler.cc:340-362 | a request to view a number means viewing exactly that number, if it fits the buffer |
| `MemeDispatch.DeleteReachesItsMeme` | src/meme_handler.cc:149-154 | a request to delete a number means deleting exactly that number |
| `MemeDispatch.EditReachesItsMeme` | src/meme_handler.cc:131-136 | a request for the edit page of a number means exactly that number |
| `MemeDispatch.ListReachesTheTable` | src/meme_handler.cc:432-452 | the list page lists everything, or what a search field that fits its buffer asks for |
| `MemeDispatch.PostReachesTheTable` | src/meme_handler.cc:137-140 | posting the form means creating exactly the row typed into it, or changing the given number to it, if the fields fit |
| `MemeRuns.PostedMemeIsSeen` | src/meme_handler.cc:298-385 | in every schedule of modelled requests whose operations are those of their bytes: a posted meme is answered with 200, or 404 when its texts break off; once its insert is done and no request has changed or deleted it, a request to view its number is answered with 200 and exactly the row of its texts; if they break off, with 404 however the run goes on |
| `MemeRuns.PostedChangeIsSeen` | src/meme_handler.cc:313-385 | likewise: a posted change is answered with 200, or 404 when its texts break off; untouched since, a view finds the new row exactly when the number was there and the texts are literals, otherwise what was there before |
| `MemeRuns.DeletedMemeIsNotSeen` | src/meme_handler.cc:534-545 | likewise: a deletion is answered with 200, and every later request to view the number, with or without leading zeros, with 404 |
| `MemeRuns.PagesAreAnswered` | src/meme_handler.cc:170-230 | likewise: a request for the edit page of a number gets it exactly when the number has a row, and one for the list gets it unless its search text breaks off |

## Left out

- Boost.Asio sockets, the accept loop, signals, thread start-up, session deletion and the lifetime of the write buffer.
- Requests longer than one read: the code takes one read for one request.
- The threads' requests carry any operation in `ServerState`, so the results about runs hold for every choice; `MemeRuns` ties every operation of a run to the bytes of its request.
- Result callbacks and the rows a `LIKE` search selects.
- `sscanf` formats built from a configured location or view path that holds `%` or blanks.
- File reads, file-existence checks, MIME choice, HTML pages and template replacement.
- Fetching through the proxy and following redirects.
- Logging, `TokenTypeAsString`, and the echo, health and bad-request handlers beyond their Content-Length.
- The choice of the meme handler's root directory, which differs from the static handler's only for the root `.`.
- Overflow of counters, block counts, `meme_count` and `atoi`: integers are unbounded.
- `ServerRuns.EveryRunKeepsTable`: speaks of runs of modelled requests; text that goes on as SQL after its quote, and ids that SQLite would convert or evaluate (signs, blanks, decimals, expressions), have an effect on the table that is not modelled.
- `ServerLosses.FinishedRunLosesIff`: likewise.
- `ServerLosses.RunLosesIff`: likewise.
- `ServerLosses.NoIdIsLost`: likewise.
- `ServerRuns.DeletedMemeStaysDeleted`: likewise.
- `MemeRuns.PostedMemeIsSeen`: likewise, and no request of the run overruns a buffer.
- `MemeRuns.PostedChangeIsSeen`: likewise.
- `MemeRuns.DeletedMemeIsNotSeen`: likewise.
- `ServerMemes.InsertSucceedsIff`: speaks of modelled requests.
- `ServerMemes.NewMemeIsStored`: likewise.
- `ServerMemes.DeletedIsNotFound`: likewise.
- `MemeForm.FormIsDecided`: fixes `sizeof(std::string)` at 32, as in the usual 64-bit library.
- `ServerReport.ReportIsConsistent`: speaks of a report read in one step; `ServerReport.TornReportIsOrdered` speaks of the report as it is read.
