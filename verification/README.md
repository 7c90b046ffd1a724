# Mailscript, verified

Mailscript is an SMTP filtering gateway that runs administrator policies on mail and verifies sender
authentication by itself. This project is a Dafny model of its protocol and verification logic, with
proofs of what each part is for. `dafny verify dfyconfig.toml` checks all of it.

| files | what they model |
|---|---|
| `SmtpWire`, `SmtpReply`, `ReplyRules`, `HeaderStrip`, `HeaderRules` | the octets: DATA in and out, upstream replies, removing and adding header fields |
| `RelayMonitor`, `RelayTurns`, `RelaySession`, `RelayAnswers`, `RelayReplies`, `Disposition`, `DeliveryRules` | the relay as a two-party protocol. `Session` is the client session with its mutable fields; the upstream answers anything at all; a ghost history records what was read, said and answered, and every method keeps it justified. `RelayTurns` says what each command does, `RelayAnswers` what the client is told, `DeliveryRules` what the actions of a policy mean |
| `Admission` | connections, counters and drain: each critical section as a method, and all interleavings of them as a transition system |
| `Spf`, `SpfRules`, `SpfMacro`, `MacroRules` | the SPF evaluator with its shared budgets over an arbitrary zone, against a reference semantics without budgets (RFC 7208) |
| `Canonical`, `RelaxedForm`, `TagStrip`, `TagList`, `TagRules`, `HeaderChoice`, `SignedHeaders`, `Dkim`, `DkimRules` | what a DKIM signature hashes, and the verifier (RFC 6376) |
| `ArcChain`, `ArcRules` | ARC sets, seals and the walk over them (RFC 8617) |
| `HeaderBlock` | splitting messages and parsing header blocks with their raw bytes kept |
| `PolicyLoader`, `PolicyReplay` | the policy snapshot and its replay |
| `EditDistance` | the two-row edit distance and the look-alike check |
| `DnsCache`, `DnsExact`, `DnsRules` | the caching resolver, and when its replies are exactly the uncached ones |
| `Text`, `Numbers`, `TextRules` | the string and number conversions of the source's library that these use |

Code that changes state in the source is a method here, proved against a function or predicate whose
own properties are then proved as lemmas. What a method and its specification share (the words of a
protocol, a record or a tag, and what they stand for) is fixed from the text in the modules called
rules.

## What the proofs found

Each of these has its exact condition or a concrete case, under the names given.

- Simple body canonicalisation cuts a bare CR at the end of the last line, which section 3.4.3 of
  RFC 6376 keeps (`Canonical.SimpleReference`, `Canonical.BareCRIsCut`), and sees LF and CRLF apart
  after a bare CR (`Canonical.SimpleLineEndings`, `Canonical.BareCRShows`).
- A `b=` tag padded with a vertical tab or form feed is read by the parser but not emptied before
  hashing (`TagList.PaddedBIsKept`), so the signature is hashed with itself; otherwise the field as
  hashed says what the field says (`TagList.StripKeepsTags`).
- `%{d2r}` keeps two labels and then turns them round, where section 7.3 of RFC 7208 counts after the
  reversal (`MacroRules.ReversalAgrees`, `MacroRules.ReversalDiffers`).
- `%{d}` and the other bare macros drop empty labels, where section 7.1 of RFC 7208 substitutes the
  value unchanged (`SpfMacro.BareMacro`, `SpfMacro.EmptyLabelIsLost`).
- SPF evaluation never answers temperror once there is a resolver, because the resolver turns
  failed queries into empty answers (`Spf.AnswerRange`); section 2.6.6 of RFC 7208 wants it. Terms
  after the first match are not even parsed (`Spf.LaterTermsIgnored`).
- The redirect limit never decides: the lookup budget is spent first (`Spf.SpfEvaluator.FollowRedirect`).
- A block-list zone asked with and without its final dot shares a cache entry but not a spelling
  (`DnsExact.DottedZone`); cached replies are exactly the uncached ones if and only if no two calls
  spell the zone of one name differently (`DnsExact.AlwaysExact`).
- A listing's comment can be two cache periods old (`DnsExact.StaleComment`); it keeps to one exactly
  when its TXT answer was stored no earlier than the listing (`DnsCache.CommentAge`).
- Drain does not wait for listeners: the gauge can still count a connection when drain has
  returned in time (`Admission.GaugeMayOutliveDrain`), one for each listener still holding one
  (`Admission.DrainedForGood`).
- An empty message reaches the next hop as one CRLF (`SmtpWire.RelayChain`).
- A message that opens with a space or tab extends the quarantine marker put on top of it
  (`HeaderStrip.MarkerIsOurs`, `HeaderStrip.MarkerIsExtended`).
- In simple mode the signature field is hashed under a fixed spelling of its name, where section
  3.4.1 of RFC 6376 keeps the one received (`SignedHeaders.OwnSpelling`,
  `SignedHeaders.LowerCaseName`).

## Model

| member | source | states |
|---|---|---|
| `RelayMonitor.AcceptedMeansDelivered` | cmd/mailscript/proxy.go:605-628 | whenever the client is told its message was accepted, the policy run on that message let it through, and the upstream took the client's sender, exactly the recipients the policy's actions leave of the client's, in order, and the octets the policy's changes make of the received text, with a final 250; or the delivery host acknowledged just that plan |
| `RelayMonitor.DataMeansExactRecipients` | cmd/mailscript/upstream.go:197-247 | at every DATA sent upstream, the recipients that transaction accepted are exactly those the policy run on the received message leaves of the client's, redirects and copies included |
| `RelayMonitor.AcceptancesAreDeliveries` | cmd/mailscript/proxy.go:605-628 | over every history the acceptances told to clients and the completed deliveries are equal in number, one still to be reported aside |
| `RelayMonitor.EveryMessageAnswered` | cmd/mailscript/proxy.go:605-636 | every message read gets exactly one reply, in order |
| `RelayMonitor.RefusedAfterRcptLoop` | cmd/mailscript/upstream.go:208-230 | over every history: when the recipient loop of a reopened transaction stops a message, every recipient has been asked; the client sees a 5xx exactly when each was refused with 5xx, and 451 when some were accepted and some not |
| `RelayMonitor.PermanentMeansRefused` | cmd/mailscript/proxy.go:605-635 | over every history: a 5xx for a message comes only from the policy, from the size and framing rules, from an upstream or host answer with that very code, or from a loop in which every recipient was refused with 5xx |
| `RelayMonitor.AlwaysCoherent` | cmd/mailscript/upstream.go:180-305 | the invariant behind these: plan, delivery and upstream log stay consistent after every allowed event |
| `RelayMonitor.CoherentStep` | cmd/mailscript/upstream.go:180-305 | each allowed event keeps that invariant |
| `RelayReplies.RcptOutcomeMeaning` | cmd/mailscript/upstream.go:208-230 | the recipient loop gives a 5xx only when every recipient was refused with 5xx, and 451 whenever some were accepted and some refused |
| `RelayReplies.RejectionMeaning` | cmd/mailscript/upstream.go:210-222 | the remembered refusal is one of the codes seen, and permanent exactly when no refusal was temporary |
| `RelayReplies.ReportedOutcome` | cmd/mailscript/upstream.go:224-230 | what the client is told of a failed loop: 5xx exactly when every code is 5xx, 451 when the codes are mixed |
| `RelayReplies.VerdictMeaning` | cmd/mailscript/delivery.go:17-63 | a message is let through exactly when no action blocks and every action that needs a delivery host has one |
| `RelaySession.Session.SendCommand` | cmd/mailscript/upstream.go:59-74 | one command, any answer the reply reader lets through; the command must be one the protocol state allows |
| `RelaySession.Session.BeginUpstream` | cmd/mailscript/upstream.go:180-195 | leaves the transaction open exactly when a connection came about and MAIL for the session's sender got 250; otherwise the failure is that of the connection or of MAIL |
| `RelaySession.Session.AskRecipient` | cmd/mailscript/proxy.go:534-546 | one RCPT is logged with its answer and extends the accepted recipients by that address exactly on 250, 251 or 252 |
| `RelaySession.Session.AddressRecipients` | cmd/mailscript/upstream.go:208-230 | every recipient accepted in order and the transaction open, or it is closed and the failure is the one the logged codes call for |
| `RelaySession.Session.SendMessage` | cmd/mailscript/upstream.go:231-246 | DATA, the stuffed octets and the final answer; a failure has the status of the exchange that failed |
| `RelaySession.Session.ForwardToUpstream` | cmd/mailscript/upstream.go:197-247 | succeeds exactly when the transaction took the planned message; otherwise the failure is the one the message, the envelope, the connection or the log gives; nothing the client has been promised is touched |
| `RelaySession.Session.Deliver` | cmd/mailscript/upstream.go:267-305 | rewrites the recipients field by redirect, screen and copy actions, reports success exactly for a completed delivery, and otherwise the failure the observer derives |
| `RelaySession.Session.CloseUpstream` | cmd/mailscript/upstream.go:249-254 | closes the connection and nothing else |
| `RelayReplies.Reported` | cmd/mailscript/upstream.go:256-265 | a failure is reported with its own 4xx or 5xx status, else with the given fallback |
| `RelaySession.Session.ResetTransaction` | cmd/mailscript/proxy.go:838-846 | leaves no transaction: no sender, recipients, data, actions or open upstream |
| `RelaySession.Session.HandleHELO` | cmd/mailscript/proxy.go:459-487 | with a name it drops the transaction and remembers the name, and changes nothing else; without one 501 and nothing changes |
| `RelaySession.Session.HandleMAIL` | cmd/mailscript/proxy.go:489-518 | each refusal in its case with nothing changed; otherwise 250 and a new transaction exactly when the upstream, if there is one, agreed, and else its own refusal and no transaction |
| `RelaySession.Session.StartTransaction` | cmd/mailscript/proxy.go:500-518 | 250 exactly when the upstream agreed and the new transaction stands, else the refusal relayed and no transaction left |
| `RelaySession.Session.HandleRCPT` | cmd/mailscript/proxy.go:520-548 | each refusal in its case with nothing changed; otherwise the one RCPT is passed on and the reply is the one its answer calls for; 250 adds exactly this recipient; the transaction is dropped exactly when the connection broke, and otherwise kept as it was |
| `RelaySession.Session.Decide` | cmd/mailscript/delivery.go:17-63 | 250 exactly when no action blocks and every action needing a delivery host has one; the code is the first blocking one; quarantine exactly when some action holds the message |
| `RelaySession.Session.ProcessWithMailScript` | cmd/mailscript/proxy.go:639-685 | accepts exactly what the policy run lets through; the text is then the marker-stripped message with the policy's changes, marked exactly when an action holds it; a refusal has the policy's code |
| `RelaySession.Session.HandleMessage` | cmd/mailscript/proxy.go:589-635 | the received text and its policy run are what is judged; one reply is recorded; 250 only for what the policy lets through, the policy's code for anything else |
| `RelaySession.Session.RelayMessage` | cmd/mailscript/proxy.go:605-629 | delivers what the policy left of the message and records the reply that became of it |
| `RelaySession.Session.HandleDATA` | cmd/mailscript/proxy.go:550-637 | 503 without a transaction and nothing changes; otherwise the transaction ends cleared, and the message just read, with its policy run, is the one judged and answered; 550 and 552 for bad framing and size |
| `RelaySession.Session.HandleRSET` | cmd/mailscript/proxy.go:848-851 | clears the transaction and keeps the name |
| `RelaySession.Session.HandleSTARTTLS` | cmd/mailscript/proxy.go:853-876 | 454 and nothing changes when TLS is not to be had; after a handshake the session starts over, with no transaction, no name and no authentication; without one nothing changes |
| `RelaySession.Session.HandleAUTH` | cmd/mailscript/submission.go:8-56 | each refusal in its case with nothing changed; with good credentials 235 exactly when the upstream took the login, and then only authentication changes; a login that failed is rolled back, with 535 when the upstream said so and 454 otherwise |
| `RelaySession.Session.TakeTurn` | cmd/mailscript/proxy.go:385-428 | every command line, known or not, has exactly the effect and the reply of its command, DATA reading the octets behind it; the session closes on QUIT |
| `RelaySession.Session.ReceiveMessage` | cmd/mailscript/proxy.go:550-590 | the message judged is exactly what the DATA reader makes of the octets behind the command |
| `RelaySession.Session.Run` | cmd/mailscript/proxy.go:339-429 | for every sequence of commands and every upstream behaviour: each turn up to QUIT is taken from where the one before left the session; the messages read are those of its DATA turns; the 250s to MAIL, to RCPT and to messages are equal in number to the promises in the history and to the deliveries; every message is answered once, and the upstream ends closed |
| `RelaySession.Session.Obey` | cmd/mailscript/proxy.go:406-428 | each verb but DATA goes to its own command, NOOP, QUIT and unknown ones to their replies |
| `RelayTurns.MessagesRead` | cmd/mailscript/proxy.go:339-429 | over every session the messages judged are those its DATA turns bring inside a transaction, in order, and no others |
| `RelayTurns.SubmittedMeansLoggedIn` | cmd/mailscript/submission.go:8-56 | in submission mode every message read comes after a login under TLS that the upstream took, and the client has been logged in ever since |
| `RelayTurns.GoodbyeIsQuit` | cmd/mailscript/proxy.go:385-428 | 221 is the reply to QUIT and to nothing else |
| `RelayAnswers.RcptAnswered` | cmd/mailscript/proxy.go:520-548 | over every session: RCPT is answered 250 exactly when its recipient joins the transaction; passed on, exactly for an upstream answer of 250, 251 or 252; the upstream's own 4xx or 5xx is relayed and 451 stands for the rest; 503, 501 and 452 in their cases |
| `RelayAnswers.MailAnswered` | cmd/mailscript/proxy.go:489-518 | over every session: MAIL is answered 250 exactly when it starts the transaction, with an upstream exactly when that said 250 to the same sender; otherwise its own 4xx or 5xx, or that of the connection, and 451 for the rest |
| `RelayAnswers.PromisesAreReplies` | cmd/mailscript/proxy.go:489-548 | the 250s a session gives to MAIL and RCPT are in number the promises of its history, each backed by the upstream |
| `RelayAnswers.FailureIsPassedOn` | cmd/mailscript/upstream.go:231-265 | when the upstream fails a message at MAIL, at DATA or after the octets, the client is told its own 4xx or 5xx, else 450 |
| `RelayAnswers.FaultIsPassedOn` | cmd/mailscript/upstream.go:180-195 | the same for a connection that did not come about and a delivery host that refuses |
| `RelayAnswers.UnsendableIsRefused` | cmd/mailscript/upstream.go:197-203 | a message that may not be sent on is refused with 550, an envelope that may not with 450 |
| `RelayAnswers.PolicyRefusal` | cmd/mailscript/proxy.go:639-685 | 550 for a message that does not parse, 451 for a script that fails, otherwise the code of the actions |
| `RelayAnswers.CommandWords` | cmd/mailscript/proxy.go:389-428 | a command is known by its first word in any letter case |
| `RelayAnswers.CredentialsExactly` | cmd/mailscript/submission.go:37-42 | credentials are good exactly when they are an identity, a user and a password, none of the last two empty, the identity empty or the user |
| `Disposition.PolicyDisposition` | cmd/mailscript/delivery.go:17-49 | the first blocking action decides the code; with none the code is 250 and quarantine is marked exactly when some action asks for it |
| `Disposition.FirstCodeMeaning` | cmd/mailscript/delivery.go:17-49 | the reply code of an action list is 250 exactly when nothing blocks, and else a 4xx or 5xx |
| `Disposition.Unsupported` | cmd/mailscript/delivery.go:51-63 | true exactly when some action needs a delivery host |
| `Disposition.CollectTargets` | cmd/mailscript/upstream.go:272-285 | replacements and copies are gathered in order, and whether anything is rewritten |
| `Disposition.DropDuplicates` | cmd/mailscript/upstream.go:295-302 | the rewritten recipients in first-seen order, none twice |
| `Disposition.DedupDistinct` | cmd/mailscript/upstream.go:295-302 | no recipient is addressed twice |
| `Disposition.DedupKeepsMembers` | cmd/mailscript/upstream.go:295-302 | and none is lost |
| `DeliveryRules.FirstRefusalDecides` | cmd/mailscript/delivery.go:17-50 | the first action that refuses decides: 550 for reject, bounce, drop and discard, 451 for defer, the asked code for smtp_error, 550 for a hold nobody takes; whatever comes after |
| `DeliveryRules.AskedCodeMeaning` | cmd/mailscript/delivery.go:29-38 | smtp_error names its code before the next colon; anything but 400 to 599 is 451 |
| `DeliveryRules.NoRefusal` | cmd/mailscript/delivery.go:17-63 | without a refusal a message goes on, deferred with 451 only when an action needs a delivery host and there is none; held exactly for quarantine and fileinto:Spam |
| `DeliveryRules.RewrittenMeaning` | cmd/mailscript/upstream.go:267-300 | who gets a message: the addresses of redirect and divert_to, or its own recipients when there are none, and those of screen_to; nobody twice |
| `DeliveryRules.EnvelopeMeaning` | cmd/mailscript/delivery.go:69-101 | an envelope is passed on exactly when it has recipients and no address is empty or holds angle brackets or control characters |
| `SmtpWire.TransparencyRoundTrip` | cmd/mailscript/proxy.go:559-588 | what dot-stuffing, the closing CRLF and the lone dot send, the DATA reader returns whole and stops right behind it, exactly when lines and size are within the limits; otherwise nothing is delivered |
| `SmtpWire.RelayChain` | cmd/mailscript/upstream.go:236-244 | an accepted message sent on unchanged is accepted by the next gateway octet for octet; only an empty one gains its CRLF |
| `SmtpWire.AcceptedIsRelayable` | cmd/mailscript/proxy.go:568-588 | every collected message is framed, ends in CRLF and is within every limit of the next hop |
| `SmtpWire.ReceivedIsFramed` | cmd/mailscript/proxy.go:568-588 | every collected message meets the CR/LF rules of outgoing data |
| `SmtpWire.ValidateWireData` | cmd/mailscript/delivery.go:151-164 | accepts exactly the texts within 50 MiB in which every CR and LF belongs to a CRLF |
| `SmtpWire.DotStuff` | cmd/mailscript/proxy.go:824-836 | the scanning loop writes the stuffed text |
| `SmtpWire.WriteMessage` | cmd/mailscript/upstream.go:236-244 | the octets written between 354 and the final reply |
| `SmtpWire.Reader.ReadWireLine` | cmd/mailscript/delivery.go:134-149 | returns the first line when it ends within the limit and consumes exactly it; otherwise an error |
| `SmtpWire.Reader.ReadData` | cmd/mailscript/proxy.go:559-588 | the DATA loop computes the reference reading of the stream and stops where that stops |
| `SmtpReply.ReadSMTPReply` | cmd/mailscript/proxy.go:788-822 | reads the reference reply and not an octet of the next |
| `SmtpReply.ReplyRoundTrip` | cmd/mailscript/proxy.go:784-822 | any well-formed reply of any number of lines within the limits is read as one, with its code and text, leaving what follows |
| `SmtpReply.ReplyIsWhatWasRead` | cmd/mailscript/proxy.go:793-815 | a reply taken as complete is the very text read, with one code from 200 to 599 on all its lines, within 64 KiB |
| `SmtpReply.ReplyTextIsOneLine` | cmd/mailscript/delivery.go:65-67 | text passed on to the client holds no CR, no LF and no blank but single-line spaces |
| `ReplyRules.LineMeaning` | cmd/mailscript/proxy.go:793-815 | a line is a reply line exactly when it begins with a code from 200 to 599 and then ends, or goes on with a space or a hyphen |
| `ReplyRules.WordsArePassedOn` | cmd/mailscript/delivery.go:65-67 | the text passed on has the words of the reply in order and nothing else |
| `HeaderStrip.StripHeader` | cmd/mailscript/proxy.go:687-719 | the line-by-line loop computes the reference machine |
| `HeaderStrip.StripIsFilter` | cmd/mailscript/proxy.go:687-719 | that machine filters whole fields: the named ones with their continuations go, all others keep order and octets, and everything from the first blank line on is unchanged |
| `HeaderStrip.NoneLeft` | cmd/mailscript/proxy.go:687-719 | no field of the stripped name remains, and no field is invented |
| `HeaderStrip.StripIdempotent` | cmd/mailscript/proxy.go:687-719 | stripping twice is stripping once |
| `HeaderStrip.StripsCommute` | cmd/mailscript/proxy.go:737-742 | strips of two names commute |
| `HeaderStrip.MachineKeepsFraming` | cmd/mailscript/proxy.go:687-719 | stripping keeps the CR/LF rules |
| `HeaderStrip.ApplyHeaderChanges` | cmd/mailscript/proxy.go:725-742 | removals in order, then the additions on top |
| `HeaderStrip.ChangesKeepFraming` | cmd/mailscript/proxy.go:687-742 | a framed message stays framed under the strip, any removals and any additions add_header lets through |
| `HeaderStrip.NewFieldName` | pkg/rules/engine.go:620-631 | an added field has the name it was given and can begin no blank line |
| `HeaderRules.BlockIsCut` | cmd/mailscript/proxy.go:687-735 | a block of fields, a blank line and a body are cut into just these fields and that remainder |
| `HeaderRules.EndMeaning` | cmd/mailscript/proxy.go:687-735 | the header ends with the text, or at a line of nothing but CRs and its LF |
| `HeaderRules.StripLeaves` | cmd/mailscript/proxy.go:687-735 | of such a block a strip leaves the other fields, the blank line and the body |
| `HeaderRules.NamedMeaning` | cmd/mailscript/proxy.go:687-735 | a field goes by the text before its first colon, trimmed, in any letter case |
| `HeaderRules.AddedText` | cmd/mailscript/proxy.go:737-770 | an added field is one line: name, colon, space, value, CRLF |
| `HeaderStrip.MarkerIsOurs` | cmd/mailscript/proxy.go:639-685 | a client cannot set the quarantine marker: the relayed message carries none, and once marked exactly the one on top; that field is the marker line and no more exactly when the relayed text does not open with a space or tab |
| `HeaderStrip.MarkerIsExtended` | cmd/mailscript/proxy.go:639-685 | a message that opens with a continuation line extends the marker put on top of it |
| `Admission.Proxy.AdmitConnection` | cmd/mailscript/proxy.go:304-316 | refuses exactly at the connection limit; otherwise counts the connection |
| `Admission.Proxy.RegisterSession` | cmd/mailscript/proxy.go:318-331 | refuses exactly while draining; otherwise adds the connection and one waited-for session |
| `Admission.Proxy.ReleaseConnection` | cmd/mailscript/proxy.go:340-345 | takes one connection off the gauge and changes nothing else |
| `Admission.Proxy.CountMessage` | cmd/mailscript/proxy.go:593-603 | one more message, rejected at once unless the policy accepted it |
| `Admission.Proxy.CountDelivery` | cmd/mailscript/proxy.go:609-628 | settles a message in delivery as accepted or rejected |
| `Admission.Proxy.CountCall` | cmd/mailscript/grpc_server.go:89-97 | counts and settles a call's message in one critical section |
| `Admission.Proxy.StartDraining` | cmd/mailscript/lifecycle.go:28-30 | sets the flag and nothing else |
| `Admission.RunsKeepInv` | cmd/mailscript/proxy.go:297-345 | in every interleaving of any number of threads: the gauge is the connections admitted and not released and never passes the limit; messages = accepted + rejected + in delivery; the wait group counts the sessions |
| `Admission.Perform` | cmd/mailscript/proxy.go:297-345 | each step of the transition system is the critical section run on the proxy itself |
| `Admission.PerformAll` | cmd/mailscript/proxy.go:297-345 | a proxy whose threads take any steps in any order keeps the invariant in its own fields |
| `Admission.InvStep` | cmd/mailscript/proxy.go:297-345 | every single critical section keeps all of that |
| `Admission.DrainingStays` | cmd/mailscript/lifecycle.go:27-56 | once draining is set no session is ever added |
| `Admission.DrainedForGood` | cmd/mailscript/lifecycle.go:27-56 | when drain returns before its deadline no session and no call is left, now or later, and every message is settled |
| `Admission.NoAddDuringWait` | cmd/mailscript/lifecycle.go:34-38 | the wait group never grows while drain waits on it |
| `Admission.GaugeMayOutliveDrain` | cmd/mailscript/proxy.go:304-326 | a concrete run in which drain has returned in time and the gauge still counts a connection being turned away |
| `Spf.DepthIrrelevant` | pkg/authverify/spf.go:149-231 | for every zone, cyclic ones included, evaluation cut at any depth beyond its cost gives the same result: the nesting needs no bound but the budget |
| `Spf.VerdictRange` | pkg/authverify/spf.go:149-231 | a check answers none exactly when its domain has no record and no oversize one: a nested none never escapes an include or a redirect |
| `Spf.CycleCost` | pkg/authverify/spf.go:337-371 | records that lead on to each other by include or redirect cost as much as any depth allows |
| `Spf.LaterTermsIgnored` | pkg/authverify/spf.go:166-204 | terms after the first decisive one change nothing, not even when malformed |
| `Spf.SpfEvaluator.Spend` | pkg/authverify/spf.go:241-247 | the lookup budget: the eleventh lookup fails |
| `Spf.SpfEvaluator.CountVoid` | pkg/authverify/spf.go:249-256 | the void budget: the third empty answer fails |
| `Spf.SpfEvaluator.FindRecord` | pkg/authverify/spf.go:258-286 | the one SPF record, none, several or an oversize one, and the void count |
| `Spf.SpfEvaluator.EvaluateA` | pkg/authverify/spf.go:296-311 | inside the budgets the reference verdict at the reference cost, otherwise permerror |
| `Spf.SpfEvaluator.EvaluateMx` | pkg/authverify/spf.go:312-336 | the same for mx, with its limit of ten exchangers |
| `Spf.SpfEvaluator.EvaluateInclude` | pkg/authverify/spf.go:337-371 | the same for include, whose nested check shares the budgets |
| `Spf.SpfEvaluator.EvaluatePtr` | pkg/authverify/spf.go:392-420 | the same for ptr with forward confirmation |
| `Spf.SpfEvaluator.EvaluateMechanism` | pkg/authverify/spf.go:288-421 | the same for every mechanism |
| `Spf.SpfEvaluator.Check` | pkg/authverify/spf.go:149-231 | a whole check with mutable budgets is the reference inside the limits, and permerror once a budget breaks at any depth |
| `Spf.SpfEvaluator.FollowRedirect` | pkg/authverify/spf.go:206-230 | the same across a redirect, a missing target being a permerror |
| `Spf.AnswerRange` | pkg/authverify/spf.go:206-285 | the top answer is none exactly when the root domain has no record and no oversize one, and evaluation never answers temperror |
| `Spf.AnswerIndependentOfDepth` | pkg/authverify/spf.go:149-231 | the answer is the same for every nesting bound beyond the lookup budget |
| `SpfRules.MechanismWord` | pkg/authverify/spf.go:163-204 | a word is read as the mechanism it names, in any letter case, with the verdict of its sign: fail for -, softfail for ~, neutral for ?, pass for + and for none |
| `SpfRules.ModifierWord` | pkg/authverify/spf.go:166-178 | redirect= is read as such, any other name=value is passed over |
| `SpfRules.RecordMeaning` | pkg/authverify/spf.go:258-286 | the record of a domain is its one TXT record beginning with v=spf1, provided none is longer than 4096 octets |
| `SpfRules.MatchDecides` | pkg/authverify/spf.go:195-204 | the first mechanism that matches gives the record the verdict of its sign and is the one reported |
| `SpfRules.IncludeMeans` | pkg/authverify/spf.go:337-371 | an include is decided by the check of its target by itself: a pass ends the record with the verdict of its sign, fail, softfail and neutral leave it to the rest, none and permerror make it a permerror |
| `SpfRules.IncludeOrFail` | pkg/authverify/spf.go:337-371 | a record of an include and -all passes when the target passes, fails when it answers fail, softfail or neutral |
| `SpfRules.IpMeaning` | pkg/authverify/spf.go:423-448 | ip4 and ip6: the other family is passed over, a missing or unreadable argument is an error |
| `SpfRules.TargetMeaning` | pkg/authverify/spf.go:450-486 | the argument of a and mx: a domain or none, and two optional prefix lengths of at most 32 and 128 |
| `SpfRules.AddressMeaning` | pkg/authverify/spf.go:296-335 | a matches when an address of its domain covers the client, mx when one of at most ten exchangers has such an address |
| `SpfRules.ExistsMeaning` | pkg/authverify/spf.go:372-390 | exists matches when its expanded name has an address |
| `SpfRules.PtrMeaning` | pkg/authverify/spf.go:392-415 | ptr matches when a reverse name at or under its target is confirmed forward |
| `SpfRules.IdentityMeaning` | pkg/authverify/spf.go:100-113 | the domain checked follows the last @ of the sender, in lower case and without brackets; with no sender it is the HELO name |
| `Spf.CycleIsPermError` | pkg/authverify/spf.go:337-371 | a domain on a cycle of includes and redirects answers permerror, when nothing before the term that leads on matches; an include that leaves the cycle may come first as long as it never matches |
| `Spf.VerifySPF` | pkg/authverify/spf.go:85-146 | the answer of the reference for the message's identity; at most 11 lookups, 11 record fetches, and 111 resolver calls unless a ptr term is evaluated |
| `SpfMacro.ExpandDomainSpec` | pkg/authverify/spf.go:488-577 | the index-driven scanner computes the reference expansion |
| `SpfMacro.ReverseLabels` | pkg/authverify/spf.go:567-570 | the in-place swap reverses the labels |
| `SpfMacro.ExpandConcat` | pkg/authverify/spf.go:488-577 | expansion distributes over concatenation of complete macro strings |
| `SpfMacro.LiteralIsItself` | pkg/authverify/spf.go:488-577 | text without a percent sign expands to itself |
| `SpfMacro.BareMacro` | pkg/authverify/spf.go:539-571 | a bare macro letter substitutes its value unchanged exactly when the value has no empty label |
| `SpfMacro.EmptyLabelIsLost` | pkg/authverify/spf.go:539-571 | a value with an empty label that does not come out as it is |
| `MacroRules.EscapeMeaning` | pkg/authverify/spf.go:505-530 | %%, %_ and %- stand for a percent sign, a space and %20; any other escape is an error |
| `MacroRules.BraceMeaning` | pkg/authverify/spf.go:531-538 | a brace expression ends at the first closing brace and stands for its macro |
| `MacroRules.LetterMeaning` | pkg/authverify/spf.go:489-503 | what each letter stands for; l and o are the two sides of the last @ of the sender |
| `MacroRules.MacroMeaning` | pkg/authverify/spf.go:539-572 | a macro is its value split at the delimiters, the last n labels kept, then turned round with r, and joined by dots |
| `MacroRules.ReversalAgrees` | pkg/authverify/spf.go:562-570 | counting before the reversal agrees with counting after it exactly when there are no more labels than asked, or the first ones are the last ones |
| `MacroRules.ReversalDiffers` | pkg/authverify/spf.go:562-570 | %{d2r} of email.example.com is com.example |
| `Canonical.CanonicalizeBody` | pkg/authverify/dkim.go:571-597 | the in-place line rewriting computes the canonical body |
| `Canonical.CollapseWhitespace` | pkg/authverify/dkim.go:708-723 | the flag-driven loop collapses blank runs to one space |
| `Canonical.SimpleIdempotent` | pkg/authverify/dkim.go:571-597 | simple body canonicalisation is idempotent |
| `Canonical.RelaxedIdempotent` | pkg/authverify/dkim.go:571-597 | so is relaxed |
| `Canonical.RelaxedOfSimple` | pkg/authverify/dkim.go:571-597 | relaxed factors through simple |
| `Canonical.AppendedBreaks` | pkg/authverify/dkim.go:587-597 | line breaks added at the end change neither mode's result |
| `Canonical.SimpleLineEndings` | pkg/authverify/dkim.go:571-575 | simple mode reads LF and CRLF alike exactly when no CRLF of the kept body follows a bare CR |
| `Canonical.RelaxedLineEndings` | pkg/authverify/dkim.go:571-585 | relaxed mode reads LF and CRLF alike on every body |
| `Canonical.LineEndings` | pkg/authverify/dkim.go:571-575 | the same exact condition for the CRLF normal form |
| `Canonical.BodyShape` | pkg/authverify/dkim.go:587-597 | a non-empty result ends in one CRLF with no line break before it, the lone CRLF of simple mode aside; only relaxed mode gives an empty one |
| `Canonical.RelaxedReference` | pkg/authverify/dkim.go:571-597 | relaxed mode is: clean each line, drop the empty lines at the end, end each line with CRLF |
| `Canonical.SimpleReference` | pkg/authverify/dkim.go:571-597 | simple mode is the rule of section 3.4.3 of RFC 6376 exactly when the last kept line does not end in a bare CR |
| `Canonical.BareCRIsCut` | pkg/authverify/dkim.go:587-597 | a body whose final bare CR simple mode loses |
| `Canonical.BareCRShows` | pkg/authverify/dkim.go:571-575 | a body of which simple mode sees whether it came with LF or CRLF |
| `TagStrip.ValueIrrelevant` | pkg/authverify/dkim.go:599-612 | every semicolon-free b= value, folded or not, empties to the same bytes |
| `TagStrip.StripIdempotent` | pkg/authverify/dkim.go:599-612 | emptying twice is emptying once |
| `TagStrip.StripByTag` | pkg/authverify/dkim.go:599-612 | tag by tag: b= keeps its name and equals sign, every other tag every byte |
| `TagStrip.PatternIsByTag` | pkg/authverify/dkim.go:604-612 | replacing the matches of the pattern from left to right is the tag-by-tag emptying |
| `TagStrip.StripsTheParsedTag` | pkg/authverify/dkim.go:604-612 | the pattern matches exactly the tag the parser calls b, unless its padding holds a vertical tab or form feed |
| `TagList.ParseStrict` | pkg/authverify/dkim.go:639-659 | lower-case, unique tag names, or nothing |
| `TagList.ParseLenient` | pkg/authverify/dkim.go:615-634 | the first tag of each name, in any case |
| `TagList.ParsersAgree` | pkg/authverify/dkim.go:615-659 | where the strict parser accepts, the lenient one reads the same tags |
| `TagList.StripKeepsTags` | pkg/authverify/dkim.go:599-612 | the hashed signature field says what the field says, with b= empty, exactly when every b is padded with plain blanks or has no value to begin with; a list that does not parse still does not |
| `TagList.PaddedBIsKept` | pkg/authverify/dkim.go:604-659 | a vertical tab before b makes parser and pattern disagree |
| `TagList.SplitHeaderList` | pkg/authverify/dkim.go:672-681 | the trimmed, non-empty names of h= |
| `TagRules.PartMeaning` | pkg/authverify/dkim.go:614-664 | a part is a name, padded at will, an equals sign and a value without its padding |
| `TagRules.StrictExactly` | pkg/authverify/dkim.go:636-664 | the strict parser takes a list exactly when its names are in lower case and none comes twice; then every tag has its own value |
| `TagRules.NoBlanksMeaning` | pkg/authverify/dkim.go:690-700 | blanks anywhere in a value are dropped, and nothing else |
| `HeaderChoice.ChosenMeaning` | pkg/authverify/dkim.go:511-538 | the k-th mention of a name selects the instance with k of that name below it; a mention too many selects nothing |
| `HeaderChoice.ChosenOnce` | pkg/authverify/dkim.go:511-538 | no instance is selected twice, and never the signature field |
| `HeaderChoice.WrittenIsHashed` | pkg/authverify/dkim.go:516-541 | the map-popping loop writes exactly the selected fields in h= order |
| `HeaderChoice.TopIsHashed` | pkg/authverify/dkim.go:511-541 | a field put on top under an oversigned name is among the hashed ones |
| `SignedHeaders.CollectOccurrences` | pkg/authverify/dkim.go:516-523 | the map of positions by lower-case name, the signature left out |
| `SignedHeaders.WriteFields` | pkg/authverify/dkim.go:525-541 | the popping loop |
| `SignedHeaders.BuildSignedHeaderInput` | pkg/authverify/dkim.go:508-552 | the whole input: selected fields, then the emptied signature line without CRLF |
| `SignedHeaders.OwnSpelling` | pkg/authverify/dkim.go:545-552 | the signature field is hashed as received exactly when its name is spelled as the verifier spells it in simple mode, or differs in case and padding only in relaxed mode |
| `SignedHeaders.LowerCaseName` | pkg/authverify/dkim.go:545-552 | a field received as dkim-signature is not hashed as received in simple mode |
| `SignedHeaders.AddedField` | pkg/authverify/dkim.go:508-552 | a field put on top leaves the input alone exactly when h= does not oversign its name; otherwise its canonical text is in the input, which grows by just that |
| `SignedHeaders.MentionedIsHashed` | pkg/authverify/dkim.go:525-541 | the bottom-most field of every name h= mentions is in the input |
| `SignedHeaders.FoldInserted` | pkg/authverify/dkim.go:702-706 | an inserted CRLF unfolds away exactly when it does not part a CR from its LF |
| `SignedHeaders.FoldingIrrelevant` | pkg/authverify/dkim.go:556-568 | folding a field at white space changes nothing in its relaxed form |
| `SignedHeaders.CanonicalFieldIdempotent` | pkg/authverify/dkim.go:556-568 | relaxed header canonicalisation is idempotent |
| `RelaxedForm.FormMeaning` | pkg/authverify/dkim.go:554-570 | simple: the field as received; relaxed: the lower-case name and the words of the unfolded value one space apart |
| `RelaxedForm.RelaxedIsWords` | pkg/authverify/dkim.go:554-570 | the relaxed value is the words of the unfolded value joined by single spaces |
| `RelaxedForm.RunsAreAlike` | pkg/authverify/dkim.go:702-723 | one run of spaces and tabs is as good as another between words, and none at either end |
| `RelaxedForm.RelaxedHasNoRuns` | pkg/authverify/dkim.go:702-723 | a relaxed value has no two blanks in a row, no tab, CR or LF, and no blank at either end |
| `RelaxedForm.RelaxedKeepsInk` | pkg/authverify/dkim.go:702-723 | its other characters are those received, in order |
| `Dkim.VerifyOne` | pkg/authverify/dkim.go:186-415 | one signature, every early exit included |
| `Dkim.VerifyDKIM` | pkg/authverify/dkim.go:95-177 | the message: at most ten signatures, the From rule, the strongest outcome and the passing domains |
| `Dkim.PassExactly` | pkg/authverify/dkim.go:186-400 | the early exits amount to: a signature passes exactly when its tags are good and unexpired, bh= matches the part of the canonical body l= selects, and a published key of the right kind and strength verified the header input |
| `DkimRules.PassFromTheText` | pkg/authverify/dkim.go:190-400 | a pass from the text of the tags: c= names the forms of header and body that are hashed, simple where it is silent, a= the algorithm, x= a time not yet past, h= From among others |
| `DkimRules.FormsMeaning` | pkg/authverify/dkim.go:282-297 | header form before the slash, body form after it, simple without one; any other word selects nothing |
| `DkimRules.TagsRefused` | pkg/authverify/dkim.go:190-297 | permerror for tags that are missing or unreadable, policy for rsa-sha1, fail for an expired signature |
| `DkimRules.SignatureRefused` | pkg/authverify/dkim.go:299-400 | permerror, policy or fail for each way the body hash, the key or the signature can be wrong |
| `DkimRules.FutureMeaning` | pkg/authverify/dkim.go:274-280 | a signature is from the future when t= is more than 48 hours ahead |
| `Dkim.PassCoversFrom` | pkg/authverify/dkim.go:186-415 | with one From field, a passing signature has that field among the bytes its key verified |
| `Dkim.DkimPassMeans` | pkg/authverify/dkim.go:95-177 | a pass is exactly: a resolver, at most one From, and a passing signature among the first ten; a domain is reported exactly when one of its signatures passed |
| `Dkim.TopFieldKeepsResult` | pkg/authverify/dkim.go:95-177 | a field put on top, neither From nor a signature, changes no result unless a signature oversigns its name |
| `Dkim.SameBodySameResult` | pkg/authverify/dkim.go:299-333 | bodies with one simple canonical form give every signature the same outcome |
| `Dkim.TransportKeepsResult` | pkg/authverify/dkim.go:299-333 | breaks added at the end change no result, nor do bare LFs under the stated condition |
| `Dkim.BeyondTheLimit` | pkg/authverify/dkim.go:305-318 | with l= only that much of the body decides, and anything beyond raises the truncation flag |
| `HeaderBlock.ParseHeaderBlock` | pkg/rules/message.go:326-392 | the line loop computes the reference parse |
| `HeaderBlock.RawHeaderPairs` | pkg/rules/verify.go:14-32 | the pairs of the named fields |
| `HeaderBlock.PrintIsKept` | pkg/rules/message.go:326-401 | for every block: printing the pairs gives the lines of the named fields, in order, joined by CRLF |
| `HeaderBlock.PrintParse` | pkg/rules/message.go:326-401 | printing the parse gives the block back byte for byte exactly when it is empty or every line belongs to a named field and ends in CRLF |
| `HeaderBlock.MessageRoundTrip` | pkg/rules/message.go:309-321 | such a block, a blank line and any body split into just those parts |
| `HeaderRules.FoldedFieldIsRead` | pkg/rules/message.go:326-392 | a folded field is read as one header: its name, its value with every continuation trimmed and one space before it, and its lines as they were |
| `HeaderRules.AddedIsReadBack` | pkg/rules/message.go:326-392 | what add_header writes is read back as that name and value |
| `HeaderRules.SplitMeaning` | pkg/rules/message.go:313-324 | the body begins after the first empty CRLF line, or the first empty LF line where there is none; otherwise there is no body |
| `ArcChain.VerifyARC` | pkg/authverify/arc.go:45-160 | the set collection and the walk compute the reference result |
| `ArcChain.ArcPassMeans` | pkg/authverify/arc.go:45-160 | a pass: instances exactly 1..n, 1 <= n <= 50, one field of each kind and 3n in all; cv none first and pass after; every seal verified over sets 1..i; the newest message signature passed and covers the one From field |
| `ArcChain.ArcPassExactly` | pkg/authverify/arc.go:45-160 | and conversely: a message passes exactly when there is a resolver, one From field, well-formed unrepeated ARC fields, and such a chain |
| `ArcRules.CvDecides` | pkg/authverify/arc.go:113-121 | a complete set with the wrong cv fails the chain; with cv=none in set 1 and cv=pass in any other its signatures settle it |
| `ArcRules.MarkMeaning` | pkg/authverify/arc.go:46-62 | a field belongs to a chain by one of three names, and to the set its i= numbers, from 1 to 50 |
| `ArcRules.MessageMeaning` | pkg/authverify/arc.go:124-135 | a message signature over Authentication-Results or an ARC field is a permerror, else what it is as a DKIM signature |
| `ArcRules.SealMeaning` | pkg/authverify/arc.go:169-210 | which verdict a seal gets for what |
| `ArcChain.CountedInstances` | pkg/authverify/arc.go:96-102 | the pigeonhole: counting up to the number of sets leaves no instance outside 1..n |
| `ArcChain.ScanIsExact` | pkg/authverify/arc.go:48-82 | a slot is filled exactly by the field of that kind and instance |
| `ArcChain.BuildARCSealInput` | pkg/authverify/arc.go:213-229 | the loop writes the reference seal input |
| `ArcChain.SealPassExactly` | pkg/authverify/arc.go:169-211 | a seal passes exactly when its tags are all there, its algorithm is allowed and a published key of the right kind and strength verified its input |
| `ArcChain.SealCoversEarlier` | pkg/authverify/arc.go:213-229 | each seal signs every field of every earlier set, their seals' signatures included |
| `PolicyLoader.Loader.Read` | pkg/rules/policy.go:32-71 | one recursive read: adds only reachable modules, keeps the visiting set, and fails only with the fault it names |
| `PolicyLoader.LoadPolicy` | pkg/rules/policy.go:20-75 | success leaves exactly the root and all it transitively loads, each an existing file inside the directory and within the size limit, as on disk, acyclic, at most 512 modules; failure has the fault it reports |
| `PolicyLoader.SnapshotHasNoFault` | pkg/rules/policy.go:32-75 | what loads has no cycle, no missing, escaping, unreadable, oversize or uncompilable module and no bad name; with at most 256 modules it breaks no limit at all |
| `PolicyLoader.SnapshotHasNoCycle` | pkg/rules/policy.go:40-46 | no chain of loads in a snapshot returns to where it began or is longer than the snapshot |
| `PolicyReplay.Player.Load` | pkg/rules/engine.go:109-152 | a load of a snapshot succeeds unless some module of it fails by its own doing |
| `PolicyReplay.Execute` | pkg/rules/policy.go:77-81 | replaying a snapshot succeeds exactly when no module fails by its own doing; it never meets a cycle, an absent module or a bad name, starts no module twice, and on success has run each but the root exactly once |
| `EditDistance.Levenshtein` | pkg/rules/domain.go:229-256 | the two-row swapped table computes the recursive edit distance |
| `EditDistance.FillRow` | pkg/rules/domain.go:241-252 | one pass turns a row of the table into the next |
| `EditDistance.DistIsLeastEdits` | pkg/rules/domain.go:229-256 | that distance is the least number of single-character edits |
| `EditDistance.DistSymmetric` | pkg/rules/domain.go:229-256 | it is symmetric |
| `EditDistance.DistBounds` | pkg/rules/domain.go:229-256 | at least the difference of the lengths, at most the longer one |
| `EditDistance.DistZeroIffEqual` | pkg/rules/domain.go:229-256 | zero exactly on equal strings |
| `EditDistance.DistTriangle` | pkg/rules/domain.go:229-256 | and satisfies the triangle inequality |
| `EditDistance.SkeletonIdempotent` | pkg/rules/domain.go:190-204 | reducing look-alikes twice is reducing them once |
| `EditDistance.SkeletonMeaning` | pkg/rules/domain.go:154-204 | two texts have one skeleton exactly when they are as long and in every place the same letter or members of one family: i, l, 1 and the bar, or o and 0 |
| `EditDistance.LooksLike` | pkg/rules/domain.go:206-227 | true exactly when the names differ but a walk of one or two edits joins their skeletons; at most two edits for targets longer than 12, else one |
| `DnsCache.FoundIsAnswer` | pkg/dnsx/resolver.go:138-149 | what is found under a question's key answers that question, was stored at most ttl ago and asked at most one timeout before that, and has the type the caller asserts |
| `DnsCache.FoundIsListing` | pkg/dnsx/resolver.go:251-269 | the same for a block-list reply, whose comment may have been kept for a ttl before |
| `DnsCache.NamesStepSound` | pkg/dnsx/resolver.go:163-232 | every lookup keeps the cache sound and is answered by a recent answer |
| `DnsCache.RblStepSound` | pkg/dnsx/resolver.go:251-280 | so does every block-list check |
| `DnsCache.CommentAge` | pkg/dnsx/resolver.go:271-279 | the comment of a listing stays within ttl of being stored for as long as the listing is handed out exactly when its TXT answer was stored no earlier than the listing, as it is when none was cached |
| `DnsCache.KeysApart` | pkg/dnsx/resolver.go:163-269 | a key prefix settles the kind of question and of stored value |
| `DnsCache.RecentIsExact` | pkg/dnsx/resolver.go:163-232 | against a fixed case-insensitive backend a cached answer is the uncached one |
| `DnsCache.RecentListingIsExact` | pkg/dnsx/resolver.go:251-280 | so is a cached block-list reply, but for the spelling of its zone |
| `DnsCache.Resolver.Get` | pkg/dnsx/resolver.go:138-149 | a hit is counted, a miss or an expired entry changes nothing |
| `DnsCache.Resolver.PutEntry` | pkg/dnsx/resolver.go:151-156 | stores the value until ttl from now and counts the lookup |
| `DnsCache.Resolver.Lookup` | pkg/dnsx/resolver.go:163-232 | the four lookups: the exact new cache and counters, and a recent answer |
| `DnsCache.Resolver.Query` | pkg/dnsx/resolver.go:171-229 | the uncached answer: failures empty, addresses sorted, reverse names without the final dot |
| `DnsCache.Resolver.CheckRBL` | pkg/dnsx/resolver.go:251-280 | the exact new cache and counters, and a recent listing |
| `DnsCache.Resolver.CheckRBLs` | pkg/dnsx/resolver.go:282-294 | one reply per zone in order, a recent one or, for an address without a reverse name, the empty one; listed exactly when some reply is |
| `DnsCache.Resolver.HasMX` | pkg/dnsx/resolver.go:234-240 | true exactly when the recent answer it gets names an exchanger, never for a disabled resolver or an empty domain; against a fixed backend, whether the domain publishes one |
| `DnsExact.Converse` | pkg/dnsx/resolver.go:138-294 | a resolver answers a sequence of calls as the store steps say |
| `DnsExact.RepliesAgree` | pkg/dnsx/resolver.go:138-294 | against a fixed backend every reply over any sequence of calls is the uncached one, zone spellings apart |
| `DnsExact.ReplyExactly` | pkg/dnsx/resolver.go:251-280 | a reply is exactly the uncached one if and only if its call is not answered from a listing asked for under another spelling |
| `DnsExact.ExactExactly` | pkg/dnsx/resolver.go:138-294 | for given times, all replies are exactly the uncached ones if and only if no call is answered so |
| `DnsExact.AlwaysExact` | pkg/dnsx/resolver.go:138-294 | whenever the calls are made, the replies are exactly the uncached ones if and only if no two calls spell the zone of one name differently |
| `DnsExact.OneNameTwoZones` | pkg/dnsx/resolver.go:257-262 | for one address, such zones differ by no more than a final dot |
| `DnsExact.DottedZone` | pkg/dnsx/resolver.go:260-269 | a zone asked again without its final dot is answered under the dotted spelling |
| `DnsExact.StaleComment` | pkg/dnsx/resolver.go:271-279 | a listing's comment can be two cache periods old |
| `DnsRules.AnswerMeaning` | pkg/dnsx/resolver.go:158-232 | exchangers and texts as the backend gave them, addresses in order, reverse names without their final dot, nothing for a query that failed |
| `DnsRules.ListingMeaning` | pkg/dnsx/resolver.go:251-280 | against a fixed backend a reply says listed exactly when the name has an address, with those addresses and the first TXT record |
| `DnsRules.ExchangerMeaning` | pkg/dnsx/resolver.go:234-240 | against a fixed backend a domain has an exchanger exactly when its query names one |
| `DnsRules.LookupName` | pkg/dnsx/resolver.go:251-262 | an address is looked up under its reversal and the zone without its final dot |

## Left out

- Octets are modelled as characters and all text is ASCII: case folding, white space and trimming follow the ASCII part of the source's library. Unicode tables, the non-ASCII rows of the look-alike table and internationalised names are not modelled.
- Sockets, TLS, deadlines, gRPC and HTTP plumbing, signals and file reads appear as nondeterministic inputs or fixed functions. A read error ends the DATA phase; a closed socket does not stop lines already buffered.
- Hashes, signatures, base64, public keys and the parsing of key records are functions of the environment; every failure of the key lookup is one answer. Explanations and other display texts of results are not modelled.
- RelaySession.Session.Run: the client's octets arrive cut into command lines, each with what follows it; that the octets left over by one DATA phase are the next command lines is shown for the reader alone (SmtpWire.Reader.ReadData).
- RelaySession.Session.HandleMAIL: the address arrives already parsed; the path syntax of MAIL and RCPT is not modelled.
- RelaySession.Session.HandleHELO: the text of the EHLO extension list is not modelled, only codes; so for every reply.
- RelaySession.Session.ProcessWithMailScript: a policy run is an arbitrary action list, removal list and header map; the Starlark interpreter and its builtins are not modelled, and the header map's sorted names are a parameter.
- RelaySession.Session.BeginUpstream: connecting, EHLO, STARTTLS and authentication upstream are one nondeterministic step with one failure; the closing of the client's connection after a 421 is not modelled.
- RelaySession.Session.HostDeliver: which actions the delivery host supports, and the request made of it, are part of its nondeterministic answer.
- SmtpWire.ValidateWireData: the size half of the check after headers have been prepended is not a claim of the model; a message near the limit may outgrow it there and is then refused.
- Admission.RunsKeepInv: a call is counted in one step and a session's policy run takes no step of its own; the swap of the policy on reload is not modelled.
- Spf.VerifySPF: no bound on resolver calls is claimed when a ptr term is evaluated, because its forward checks are not capped. IP address matching is a function of the environment.
- Spf.CycleIsPermError: stated for cycles on which no term decides before the include or redirect that leads on; a match or an error there forestalls the cycle.
- Dkim.VerifyDKIM: a pass does not imply that a From field exists, since a message without one is not refused; the theorem is for messages with exactly one. Times are whole seconds.
- Dkim.SameBodySameResult: one direction only, since different bodies may share a hash.
- ArcChain.VerifyARC: of the result's details the explanations are left out.
- HeaderBlock.ParseHeaderBlock: MIME structure, encoded words and address parsing are not modelled.
- PolicyLoader.LoadPolicy: every path resolves to itself and files do not change during a load; a module reached through a symbolic link from outside is not modelled. The visiting mark is set after the size checks rather than before them, counting itself in.
- PolicyReplay.Execute: a script is its load statements, with a failure of its own before, between or after them given by a function; step limits and timeouts are such failures.
- DnsCache.Resolver.Lookup: the backend answers as of the moment it is asked; the sharing of returned slices between callers is not modelled. One method stands for the four lookups of like shape; TLSA and authenticated TXT queries are left out.
- EditDistance.SkeletonIdempotent: for the ASCII part of the table.
- DMARC, DANE, MTA-STS, TLS reporting, the public suffix list, scoring, classifiers and the command line would add mostly case analysis.
