# In-memory real-estate listing manager, modelled in Dafny

`Real-estate.py` is a PyQt5 desktop program for browsing property listings as a
buyer and managing them as an agent. Under its widgets sits a small in-memory
listing manager, and that is what this project models and proves things about:

- **`PropertyCounter`** (module `Counter`): seeds itself with the largest
  integer `id` among the listings, then hands out ids one above the last.
- **`AGENT_DATABASE`** (module `Credentials`): a username-to-password map.
  The registration dialog checks that every field is filled, that the password
  is confirmed and at least six characters long, and that the stripped username
  is free, and only then inserts. The login dialog does an exact lookup and
  compare.
- **The property editor** (module `Listings`): `save_property` requires title,
  price and description, sets `rooms = bedrooms + 2` and turns a blank image
  path into `None`. Edits merge the editor's record into the stored one. Deletes
  filter the id out of the list. The agent view and the ownership rule of edit
  and delete compare agent names ignoring case.
- **The sidebar filter** (module `Filters`): a card is visible when the search
  text occurs in "title type agent" (lowered), the type matches or is "All",
  the price is within the maximum, and the bedrooms and bathrooms reach the
  minimums.
- **The main window's state** (module `Portal`): the listing list, the agent
  session (`is_agent_logged_in`, `agent_username`), the selection and the
  counter, with add, edit, delete, the agent or buyer view, login and logout.

Python's string operations (`strip`, `lower`, `in`, `replace`) and the price
text parsing are in module `Text`; `Option` and `Result` are in `Wrappers`.

Modelling choices:

- A listing is a `datatype`. Its `id` is either an integer or some other value
  (`Key`), so that `initialize` can skip ids that are not integers.
- Bathrooms are counted in half units, because the spin boxes step by 0.5.
- Prices are exact decimals (`Option<real>`). `None` plays Python's
  `float('inf')`: a maximum that cannot be read bounds nothing, and a listing
  price that cannot be read exceeds every bound.
- What a dialog returns is a parameter. For add and edit it is
  `Option<EditorForm>`: the form as it stood when save was pressed, or `None`
  when the dialog was cancelled. For delete it is a `confirmed` flag.
- A warning box becomes a returned value: `Outcome` for edit and delete, and
  `RegistrationError` for registration.
- Add, edit and delete require an agent session. Their buttons sit in
  `AgentActionFrame`, which is shown only while an agent is logged in
  (Real-estate.py:644, 936, 950).
- The repository's other variants hash passwords with SHA-256 and keep
  listings in a database. This file stores plaintext passwords in a map and
  keeps listings in a list, and the model follows this file.

One property worth noting: accounts are told apart by their exact name, but
ownership ignores case. `CaseVariantRegistersAndMayModify` shows that for any
existing agent, a free name differing from it only in case registers as a new
account that passes the ownership check for the existing agent's listings.
`CaseVariantAgentMayModify` applies this to the starting database: a new agent
"ALICE" may edit and delete the listings of "alice".

## Model

| member | source | states |
|---|---|---|
| `Text.Strip` | Real-estate.py:469-472 | a stripped text is a slice of the text with only whitespace cut from either end, and has no whitespace at either end |
| `Text.StripEmptyIff` | Real-estate.py:474 | a stripped text is empty exactly when the text is whitespace only |
| `Text.Lower` | Real-estate.py:857-859 | `lower()` maps each character to its lower-case form and keeps the length |
| `Text.ContainsIff` | Real-estate.py:907 | `search_text in prop_string` holds exactly when the search text occurs at some index |
| `Text.Contains` | Real-estate.py:907 | an empty search text is found in every text, and a text is found only in one at least as long |
| `Text.RemoveChar` | Real-estate.py:893 | `replace(c, '')` leaves no `c` and keeps exactly the other characters |
| `Text.RemoveCharCounts` | Real-estate.py:893 | `replace(c, '')` keeps every other character as often as it occurred |
| `Text.RemoveCharConcat` | Real-estate.py:893 | removing a character from two joined texts removes it from each part |
| `Text.RemoveAll` | Real-estate.py:911 | `replace(' / mo', '')` never lengthens the text |
| `Text.RemoveAllFirst` | Real-estate.py:911 | `replace(' / mo', '')` removes the first occurrence, keeps the text before it unchanged and goes on with the text after it |
| `Text.RemoveAllTrailing` | Real-estate.py:911 | `replace(' / mo', '')` gives back a text free of the pattern's first character, with or without the pattern appended |
| `Text.RemoveAllAbsent` | Real-estate.py:911 | `replace(' / mo', '')` leaves a text in which ' / mo' does not occur unchanged |
| `Text.ParseDecimal` | Real-estate.py:894 | `float()` reads a price text exactly when it is decimal text, as `DecimalTextIff` spells out, and never reads a negative value |
| `Text.IsDecimal` | Real-estate.py:894 | text accepted as a decimal holds a digit, and a run of digits is accepted exactly when it is not empty |
| `Text.RemoveFirst` | Real-estate.py:894 | `replace('.', '', 1)` shortens the text by one exactly when it holds a point |
| `Text.CountChar` | Real-estate.py:894 | `count('.')` is at most the length and is 0 exactly when the text holds no point |
| `Text.DecimalTextIff` | Real-estate.py:894 | a text is readable as a decimal exactly when `replace('.', '', 1)` leaves a non-empty run of digits and `count('.') < 2` |
| `Text.DecimalTextValue` | Real-estate.py:894 | a readable text reads as its digits without the point, divided by ten to the number of digits after the point |
| `Text.MoneyTextDigits` | Real-estate.py:893 | dropping `$` and `,` from a text of digits, `$` and `,` leaves its digits in order |
| `Listings.SaveProperty` | Real-estate.py:478-488 | a saved record keeps the form's listing type, property type, bedrooms and bathrooms, and has two rooms more than bedrooms |
| `Listings.SavePropertyRefusesBlank` | Real-estate.py:469-476 | the editor refuses a form exactly when title, price or description is blank |
| `Listings.SavedRecordShape` | Real-estate.py:478-488 | a saved record has trimmed non-empty texts, the form's choices and counts, `rooms = bedrooms + 2`, and no image exactly when the path was blank |
| `Listings.NewListing` | Real-estate.py:784-788 | an added record carries the editor's fields, the new integer id, the agent and the placeholder phone |
| `Listings.Merge` | Real-estate.py:812 | an edit replaces every editor-owned field and keeps `id`, `agent` and `agent_phone` |
| `Listings.MayModifyIff` | Real-estate.py:799-800 | edit and delete are allowed on an unassigned listing or one whose agent equals the logged-in agent ignoring case |
| `Listings.MayModify` | Real-estate.py:799-800 | an unassigned listing, or one whose agent equals the user ignoring case, may be edited and deleted |
| `Listings.ShownToAgent` | Real-estate.py:858-862 | the agent view shows a listing exactly when the agent may edit or delete it |
| `Listings.AgentView` | Real-estate.py:856-862 | the agent view is no longer than the list and holds only listings the agent may modify |
| `Listings.DeleteById` | Real-estate.py:839 | a delete never lengthens the list and leaves no record with the deleted id |
| `Listings.MayModifyIgnoresCase` | Real-estate.py:827-828 | the ownership rule does not depend on the case of either name |
| `Listings.AgentViewIsSubsequence` | Real-estate.py:856-862 | the agent view keeps the list's order |
| `Listings.AgentViewMembers` | Real-estate.py:858-862 | the agent view holds exactly the listings the agent may edit or delete |
| `Listings.AgentViewCounts` | Real-estate.py:858-862 | each listing the agent may modify appears in the view as often as in the list, and any other listing not at all |
| `Listings.AgentViewWithinList` | Real-estate.py:863-865 | the agent view is no longer than the buyer view, the whole list, and contained in it |
| `Listings.DeleteByIdMembers` | Real-estate.py:839 | a delete keeps exactly the records with another id |
| `Listings.DeleteByIdIsSubsequence` | Real-estate.py:839 | a delete keeps the remaining records in order |
| `Listings.DeleteByIdSize` | Real-estate.py:839 | a delete removes one entry per record that carried the id |
| `Listings.DeleteAbsentId` | Real-estate.py:839 | deleting an id nobody carries changes nothing |
| `Listings.FirstIndexWithId` | Real-estate.py:810 | the edit target is the first record carrying the id, or none |
| `Listings.FindIndexById` | Real-estate.py:810 | the search loop returns the first index whose record carries the id, or reports that none does, in agreement with `FirstIndexWithId` |
| `Counter.MaxIntId` | Real-estate.py:18-25 | the seed is at least 0 and every integer id, and is 0 or one of those ids |
| `Counter.PropertyCounter.constructor` | Real-estate.py:13 | the counter starts at 0 |
| `Counter.PropertyCounter.Initialize` | Real-estate.py:16-26 | after `initialize` the counter equals the largest integer id, or 0 |
| `Counter.PropertyCounter.GetNextId` | Real-estate.py:29-32 | `get_next_id` adds one to the counter and returns the new value |
| `Counter.IssueIds` | Real-estate.py:16-32 | after `initialize`, n calls of `get_next_id` give n ids that strictly increase and exceed every integer id of the seed list |
| `Filters.ParseMaxPrice` | Real-estate.py:893-894 | a readable maximum price is never negative; unreadable means no bound |
| `Filters.MaxPriceOfMoneyText` | Real-estate.py:893-894 | a maximum written with digits, `$` and `,` bounds by the value of its digits, and by nothing when it has no digit |
| `Filters.ListingPrice` | Real-estate.py:911-915 | a readable listing price is never negative; unreadable counts as infinite |
| `Filters.ListingPriceOfMoneyText` | Real-estate.py:911-915 | a listing price written with digits, `$` and `,`, with or without " / mo", reads as the value of its digits, and is unreadable when it has no digit |
| `Filters.IsVisible` | Real-estate.py:906-924 | a card shown under a maximum price has a readable price within that maximum |
| `Filters.CriteriaOf` | Real-estate.py:890-900 | the search text is stripped and lowered, so lowering it again changes nothing, and a readable maximum price is never negative |
| `Filters.PriceWithin` | Real-estate.py:917 | without a maximum every price passes; under a maximum only a readable price can pass |
| `Filters.FlagEach` | Real-estate.py:902-925 | the card loop gives one visibility flag per card, in order, each the condition applied to that card |
| `Filters.ApplyFilters` | Real-estate.py:889-925 | card i is visible exactly when all five conditions hold for it |
| `Filters.InitialFilterShowsAll` | Real-estate.py:574-602 | with the filter widgets as they start, every listing is visible |
| `Filters.TitleSearchFinds` | Real-estate.py:906-907 | a search found in the title, in any case, passes the search condition |
| `Filters.AgentSearchFinds` | Real-estate.py:906-907 | a search found in the agent's name, in any case, passes the search condition |
| `Filters.StricterFilterHidesMore` | Real-estate.py:917-924 | tightening price, bedroom or bathroom bounds never shows a hidden card |
| `Filters.UnreadablePriceHidden` | Real-estate.py:911-917 | a listing whose price cannot be read is hidden by any maximum price |
| `Credentials.CheckRegistration` | Real-estate.py:258-275 | an accepted registration yields the stripped, non-empty, untaken username, with a confirmed password at least six long |
| `Credentials.Register` | Real-estate.py:272-277 | registration keeps every existing account and its password, and the only account it can add is the stripped name with the given password |
| `Credentials.RegistrationAcceptedIff` | Real-estate.py:263-275 | registration goes through exactly when the name is not blank, the password is confirmed and at least six long, and the name is free |
| `Credentials.RegisterAddsOneAccount` | Real-estate.py:272-277 | a refused registration changes nothing; an accepted one adds exactly one entry and keeps all others |
| `Credentials.RegisterThenLogin` | Real-estate.py:356-364 | after registering, login with the stored name and the password succeeds |
| `Credentials.RegisterTwiceRefused` | Real-estate.py:273-275 | registering the same stripped name again is refused as taken |
| `Credentials.CheckLogin` | Real-estate.py:361 | a login passes only for a stored name whose stored password is the one given |
| `Credentials.LoginWrongPasswordFails` | Real-estate.py:360-366 | login with a password other than the stored one fails |
| `Credentials.PasswordRuleKept` | Real-estate.py:269-277 | the starting passwords are at least six long and registration keeps that so |
| `Credentials.AgentDatabase.constructor` | Real-estate.py:37 | the database starts with alice and ben |
| `Credentials.RegistrationDialog.constructor` | Real-estate.py:256 | a new registration dialog has registered nobody |
| `Credentials.RegistrationDialog.HandleRegistration` | Real-estate.py:258-282 | the outcome is the registration check's; only an accepted one writes the database and the dialog |
| `Credentials.LoginDialog.constructor` | Real-estate.py:346-348 | a new login dialog has accepted nobody |
| `Credentials.LoginDialog.HandleLogin` | Real-estate.py:352-366 | login succeeds exactly on a filled, matching pair, records the name, and only reads the database |
| `Credentials.LoginDialog.OpenRegistrationDialog` | Real-estate.py:368-381 | a completed registration makes the login dialog report that name as logged in |
| `Credentials.LoginDialog.LoginInfo` | Real-estate.py:380-381 | a dialog that reports success also reports a user name |
| `Portal.MainWindow.constructor` | Real-estate.py:514-529 | the window takes the list, seeds the counter from it and starts in agent mode exactly for a non-empty initial user |
| `Portal.MainWindow.Select` | Real-estate.py:732-733 | a clicked card becomes the selection, and the window's invariant is kept |
| `Portal.MainWindow.AddProperty` | Real-estate.py:781-792 | an accepted form appends exactly one record with id one above the old counter, owned by the agent; the id exceeds every integer id in the list; otherwise nothing changes |
| `Portal.MainWindow.EditProperty` | Real-estate.py:794-819 | refused without a selection or for another agent's listing; otherwise only the first record carrying the id takes the editor's fields and is selected again |
| `Portal.MainWindow.DeleteProperty` | Real-estate.py:822-847 | refused without a selection or for another agent's listing; once confirmed, exactly the records with that id go and the selection is cleared |
| `Portal.MainWindow.UpdateSidebarListings` | Real-estate.py:851-865 | an agent sees, in order, exactly the listings they may modify; a buyer sees the whole list |
| `Portal.MainWindow.OnAgentLoginSuccess` | Real-estate.py:930-940 | login sets the agent session and keeps the selection |
| `Portal.MainWindow.OnAgentLogout` | Real-estate.py:942-956 | logout ends the agent session and clears the selection |
| `Portal.MainWindow.OnBuyerView` | Real-estate.py:983-988 | the buyer view button logs an agent out and leaves a buyer session alone |
| `Portal.CaseVariantRegistersAndMayModify` | Real-estate.py:799-800 | for any existing agent, a new name differing from it only in case registers as a separate account and passes the ownership check for the existing agent's listings |
| `Portal.CaseVariantAgentMayModify` | Real-estate.py:799-800 | a newly registered "ALICE" passes the ownership check for alice's listings |

## Left out

- Widgets, layouts, style sheets, signals, message boxes and the `exec_()` flow of dialogs. This includes `on_agent_button_clicked`, the role selection dialog, `RealEstateApp` and `sys.exit`. A dialog's answer is a parameter and a warning is a returned value.
- `on_card_clicked`'s details panel, the bathroom display string and image loading, and the thumbnails of `PropertyCard`. These are display only.
- `on_contact_clicked`: it only shows a message.
- The seed data `INITIAL_PROPERTIES`. The window's constructor takes any list.
- IEEE floating point. Prices are exact decimals, so rounding of very long decimal texts is not modelled.
- `Filters.ListingPrice`: reads decimals only. `float()` also accepts signs, exponents, underscores and `inf`/`nan`; such prices are modelled as unreadable, that is infinite. This differs for "nan": Python hides such a listing under every filter, even the starting one, since `nan <= inf` is false, while the model shows it when no maximum is set. `Filters.InitialFilterShowsAll` therefore holds of the model, and of the program only for listings without a "nan" price.
- `Text.DecimalTextIff`: digits are ASCII only. Python's `isdigit()` also accepts other Unicode digits, which changes the maximum price read at Real-estate.py:894. For a maximum such as "²", `isdigit()` is true and `float()` then raises a `ValueError` that nothing catches there, while the model sets no bound. For Arabic-Indic digits, Python bounds by their value, while the model sets no bound.
- `Text.Lower`: lowers ASCII and Latin-1 letters only. The rest of Unicode case mapping is not modelled.
- Bathroom values that are not whole half units, which a double spin box could also hold.
- Aliasing of `selected_property`. The selection is kept by value. On every path the program can take the two agree, because edit selects the updated record again and delete clears the selection.
- `PropertyCounter.current_id` is a class attribute shared by the whole program. Here it is one object owned by the window.
- Ids that are Python booleans, which `isinstance(..., int)` also accepts.
- The crash on an owned listing when no agent is logged in (`None.lower()`). It cannot happen, because the edit and delete buttons are hidden then.
- Password hashing: the program stores and compares plaintext.
