# Canvas Plus student list, modelled in Dafny

This project models the "Download Student List" task of Canvas Plus. Canvas Plus is a Streamlit page over the Canvas LMS API. For a chosen course, the task works in four steps:

1. It keeps the users enrolled as students who have a student number.
2. It builds a table with one row per student profile. The columns are `Name` and the selected info fields (`Avatar`, `Student Number`, `Email`).
3. It adds one column per selected group category. In that column, each student gets the name of their group.
4. It exports the table to an xlsx worksheet. It embeds one avatar image per row, formats column A and enlarges the image rows.

The Canvas calls are replaced by plain input sequences: enrollments, user profiles, and group categories with their groups. The worksheet is modelled as a layout plan, not as bytes. The plan holds the header, the body rows, the column format, the image placements and the row heights.

Modules:

- `Records` (`records.dfy`): the values Canvas supplies: enrollments, profiles, groups, categories, table cells and the closed set of info fields.
- `Roster` (`roster.dfy`): the enrollment filter `get_student_id`, the profile filter, and the loop that builds the column lists.
- `Frame` (`frame.dfy`): the table (the pandas DataFrame) as a class, plus its label-based assignment `df.loc[ids, column] = value`.
- `Groups` (`groups.dfy`): the nested loops of the group join. They are specified by fold functions, and lemmas prove last-write-wins and the frame facts about those functions.
- `Export` (`export.dfy`): `to_excel`, the avatar-column lookup and the loop that places the images.
- `StudentList` (`student_list.dfy`): the code at module level that runs these steps in order.

Facts about the code that the model keeps:

- Apart from the role `StudentEnrollment`, the only test is `integration_id is not None` on the enrollment's user (home.py:13-15); no user is excluded by name.
- The image scale is a fixed 0.2 on both axes (home.py:47).
- `df.to_excel` writes the `<img ...>` text into the Avatar cells, and the image is placed over that text, so the body of the layout plan holds that text.
- The Avatar column of the worksheet is found by name among all columns (home.py:26-30), so a group category named `Avatar` that has groups also gets images placed over it.

## Model

| member | source | states |
|---|---|---|
| `Roster.StudentIds` | home.py:11-15 | an id is in the result exactly when some enrollment with role `StudentEnrollment` and a present `integration_id` has that user id; the result is never longer than the enrollment list |
| `Roster.StudentIdsAppend` | home.py:13-15 | order is kept: the ids of `a + b` are the ids of `a` followed by the ids of `b` |
| `Roster.FilterProfiles` | home.py:94 | a profile is a row exactly when it is one of the users and its id is among the student ids |
| `Roster.FilterProfilesAppend` | home.py:94 | the filter keeps profile order: filtering `a + b` gives the filtered `a` followed by the filtered `b` |
| `StudentList.StudentRows` | home.py:93-94 | the rows are exactly the users with a student enrollment that has an `integration_id`; the info columns and categories play no part |
| `Roster.AvatarDirectiveRoundTrip` | home.py:100-102 | the `<img src="URL" width=100>` directive carries its URL unchanged: parsing it back gives the URL |
| `Roster.InfoCell` | home.py:99-104 | an Avatar cell is a directive whose URL is the profile's `avatar_url`; a Student Number cell holds `integration_id` and is empty when that is None; an Email cell does the same with `primary_email` |
| `Roster.HeaderShape` | home.py:91 | the columns `Name` plus the selected fields are pairwise distinct and name exactly `Name` and each selected field |
| `Roster.AppendInfoCells` | home.py:99-104 | one pass over the selected fields appends the profile's cell to each selected field's column and leaves every other column unchanged |
| `Roster.BuildColumns` | home.py:90-104 | the columns are `Name` then the selected fields, in selection order; the row index holds the profile ids in row order; every column has one cell per row; `Name` holds each row's name and each field column holds each row's `InfoCell` |
| `Frame.Table.constructor` | home.py:106 | the DataFrame holds the given columns, index and cells, and keeps the shape invariant: distinct columns, each with one cell per row |
| `Frame.Table.Assign` | home.py:111 | keeps the shape invariant and the index; appends the column when it is new; the new cells are those of `Assigned` |
| `Frame.AssignedCells` | home.py:111 | the rows whose label is listed get the value; other rows keep their cell (empty in a new column); other columns are unchanged |
| `Groups.LastGroupIsLast` | home.py:109-111 | last write wins: no group is found exactly when no group lists the student; otherwise the group found lists the student and no later group does |
| `Groups.LastGroupOfSoleGroup` | home.py:109-111 | a student listed by exactly one group of a category gets that group's name, whatever the group order |
| `Groups.CategoryJoinedCells` | home.py:109-111 | after one category, each row's cell in its column is the name of the last group listing the student, or the earlier cell when no group does; no other column changes; the column exists exactly when it existed before or the category has groups |
| `Groups.JoinedFrame` | home.py:108-111 | the whole join leaves every column that is named after no category exactly as it was |
| `Groups.JoinedCell` | home.py:108-111 | for categories with distinct names, a row's cell in category `i`'s column is what category `i`'s own groups give, so later categories do not disturb it |
| `Groups.AddedColumnsMembers` | home.py:108-111 | a column is appended by the join exactly when it is not a column yet and some selected category with at least one group carries its name |
| `Groups.JoinedColumnsOrder` | home.py:108-111 | the join appends, after the existing columns and in category order, the names of the categories that have groups and are not columns yet |
| `Groups.JoinCategory` | home.py:109-111 | the inner loop keeps the shape invariant and the index, and leaves the table's columns and cells as `CategoryColumns` and `CategoryJoined` give |
| `Groups.JoinGroups` | home.py:108-111 | the outer loop keeps the shape invariant and the index, and leaves the table's columns and cells as `JoinedColumns` and `Joined` give |
| `Export.AvatarIndex` | home.py:26-30 | nothing is found exactly when there is no `Avatar` column; otherwise the position found is the first `Avatar` column |
| `Export.ToExcel` | home.py:24-52 | the header is the column list and the body holds each row's cells in column order; column A gets the format `0.00`; with no Avatar column, no image is placed and no row height is set; with one, image `i` is the avatar of profile `i` at worksheet row `i+1` in the Avatar column, scaled by 0.2 on both axes, and exactly rows `1..len(profiles)` get height 80 |
| `StudentList.StudentTable` | home.py:76-111 | rows are the student profiles in profile order, keyed by id; columns are `Name`, the fields, then the new category columns; Name and field cells come from the profile unless a category reuses the column name; a category column newly added holds the last listing group's name, or is empty; a category reusing `Name` or a field's column puts the last listing group's name in its members' rows and leaves the profile's cell in the others |
| `StudentList.DownloadStudentList` | home.py:76-114 | the header is `Name`, the selected fields, then the new category columns; worksheet row `i+1` holds table row `i`'s cells in column order, and the table's cells are those `StudentTable` states; column A gets the format `0.00`; when the Avatar field is selected or a category named `Avatar` has groups, image `i` sits on row `i+1` under the `Avatar` header, scaled by 0.2 on both axes, with the avatar URL of the profile in table row `i`, and exactly rows `1..len(profiles)` get height 80; when the field is selected and no category is named `Avatar`, the cell beneath the image holds the directive for that same URL; otherwise there are no images and no row heights |
| `StudentList.AvatarColumnShown` | home.py:108-111 | the table has an `Avatar` column exactly when the Avatar field is selected or some category named `Avatar` has groups |

## Left out

- Streamlit UI: the title, token input, course and task select boxes, the multiselects, the download button and the HTML preview. These are interface plumbing. Their selections become method parameters.
- `@st.cache` memoisation of `get_student_id` and `get_user_profile`: it does not change any result.
- The Canvas API calls (`Canvas`, `get_courses`, `get_enrollments`, `get_users`, `get_profile`, `get_group_categories`, `get_groups`, `get_users` of a group). These are network calls. Their answers are input sequences, so `get_user_profile` is just the `users` parameter.
- `requests.get` of each avatar and the image bytes: network I/O. Each placement records only the URL it would load. In the source the fetch is unguarded, so a failed request, or bytes xlsxwriter cannot read as an image, aborts the whole export; the model always produces a complete layout plan.
- The xlsx serialisation through `pd.ExcelWriter` and xlsxwriter, `writer.save()` and `getvalue()`. This is a library. The model produces the layout plan instead of the bytes.
- `Frame.Table.Assign`: for a member id that no table row carries, the pandas behaviour of `df.loc` is library-defined. The model chooses to ignore such ids and change only the rows that are present. Likewise, a new column is created even when no member is present. Pandas versions whose list-based `.loc` assignment rejects missing labels with a `KeyError` abort the page at home.py:111 when a group lists anyone outside the table, for example a teaching assistant or a user without `integration_id`. The model is more permissive than the code under those versions.
- `Roster.BuildColumns`: requires the selected info fields to be distinct. The multiselect never repeats a field. A repeated field would make `pd.DataFrame` reject lists of unequal length.
- `Groups.JoinedCell`, `Groups.JoinedColumnsOrder`, `StudentList.StudentTable`, `StudentList.DownloadStudentList`: require distinct category names. The categories are taken from a dict keyed by name.
- The "Download Discussion Data" task: the file offers it in the task menu but has no code for it.

