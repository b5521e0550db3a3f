# School administration core, in Dafny

This project models the deterministic core of a school-administration application and proves properties of that model. The application is a FastAPI/SQLAlchemy back end with denormalized per-entity tables and a React front end. The model covers:

- **Dynamic schema evolution** (`dynamic_schema.dfy`): a schema manager maps runtime values to SQL column types. It compares a request's fields with a table's live column list and issues one additive `ALTER TABLE … ADD COLUMN … NULL` per unseen, unprotected field. It reports per field whether the column was created.
  - The catalog is a map from table name to a `Table` object whose column list the manager extends in place.
  - Whether the engine refuses an `ALTER` is an oracle: a set of column names.
  - Tables whose introspection fails are a separate set. Every statement executed is kept in a log, so "protected fields are never added" and "a field already present is never added again" can be stated.
- **Router helpers of the students, teachers and classes endpoints** (`records.dfy`, `students_router.dfy`, `teachers_router.dfy`, `classes_router.dfy`): username search, roll, admission and employee numbers, age from a date of birth, filter-key suffixes, pagination, the request rewrite the create handlers do before building a row (school, class and class-teacher columns copied from looked-up rows, derived numbers, dates and names, and the requests that raise), partial updates that recompute `full_name` and `class_section`, soft delete, and the subject→teacher propagation into a class timetable.
  - A database row is a `Row` object whose attribute map the handlers update in place.
  - "Today", the current timestamp, the current user and the rows the handlers look up by a foreign id are parameters.
- **Front-end state logic**:
  - the student list, CSV import and add-student wizard (`student_management.dfy`);
  - the custom-field layout editors (`field_keys.dfy`, `field_sections.dfy`, `field_editors.dfy`, `teacher_fields_editor.dfy`, `custom_fields.dfy`);
  - the marks sheets and gradebooks (`marks.dfy`, `gradebook.dfy`);
  - the password page (`password.dfy`);
  - the daily attendance sheet and the monthly attendance calendar (`attendance.dfy`, `attendance_calendar.dfy`);
  - exam setup (`exam_setup.dfy`), the role × permission matrix (`roles.dfy`), the timetable tab (`timetable.dfy`) and guardian entry (`guardians.dfy`);
  - the CSV import template (`csv_template.dfy`).

How the front-end code is modelled:

- A handler that replaces component state becomes a method of a class whose fields are that state.
- A handler that is a pure expression of the old state becomes a function.
- Loops in the source (the calendar grid, `calculateTotal`, `getMissingCount`, `parseCSV`, the strength meter, `validatePassword`, splices on copied arrays) are methods with loop invariants. Each is proved against a specification function, and the properties are proved about that function.

Code that the application repeats verbatim is modelled once, and the "## Model" table names the other copies:

- `calculate_age` and the username search of the students and teachers routers;
- `generateKey` of the three student field editors;
- the class and attendance custom-field screens;
- the handlers shared by the class gradebook and the exams sheet.

Strings are sequences of characters over ASCII. Case mapping and the whitespace class of the regular expressions are written out for ASCII. A number typed into a marks or grade cell is modelled as the exact real it parses to, and the empty cell as `None`.

The admission-number helper's documentation mentions an `ADMIN` prefix. The code emits none, and the model follows the code.

## Model

| member | source | states |
|---|---|---|
| DynamicSchema.SqlTypeName | src/backend/utils/dynamic_schema.py:45-81 | each column type has exactly one of the seven SQL spellings the manager emits |
| DynamicSchema.SqlTypeNameInjective | src/backend/utils/dynamic_schema.py:45-81 | distinct column types are spelled differently, so the emitted SQL type determines the chosen type |
| DynamicSchema.SqlTypeOf | src/backend/utils/dynamic_schema.py:45-81 | the type chosen for each value, as an if-and-only-if per type: None and unknown types and strings longer than 255 are TEXT, shorter strings VARCHAR(255), int INT, float FLOAT, bool TINYINT(1), datetime DATETIME, date DATE |
| DynamicSchema.AlterSqlShape | src/backend/utils/dynamic_schema.py:97-99 | the statement names the table, column and type and ends in NULL or NOT NULL according to `nullable` |
| DynamicSchema.Attempts | src/backend/utils/dynamic_schema.py:136-151 | no more ALTER attempts than fields processed |
| DynamicSchema.Statements | src/backend/utils/dynamic_schema.py:147-151 | one statement per attempted field |
| DynamicSchema.NewColumns | src/backend/utils/dynamic_schema.py:83-111 | no more columns gained than statements attempted |
| DynamicSchema.SyncStep | src/backend/utils/dynamic_schema.py:136-152 | how report, statements and columns extend by one loop turn: skip existing, False for protected, else the ALTER outcome |
| DynamicSchema.SyncLoopStep | src/backend/utils/dynamic_schema.py:136-152 | one loop turn keeps report, statement log and column list equal to their specification over the processed prefix |
| DynamicSchema.AttemptsMembers | src/backend/utils/dynamic_schema.py:138-151 | a field gets an ALTER iff it is among those processed, not an existing column and not protected |
| DynamicSchema.NewColumnsMembers | src/backend/utils/dynamic_schema.py:83-111 | a column is added iff an attempt for it is not refused by the engine; it is nullable and typed from its value |
| DynamicSchema.Table.constructor | src/backend/utils/dynamic_schema.py:34-43 | a table starts with the given column list |
| DynamicSchema.SchemaManager.constructor | src/backend/utils/dynamic_schema.py:30-32 | a manager over a catalog, an engine oracle and the tables whose introspection fails, with an empty statement log |
| DynamicSchema.SchemaManager.Columns | src/backend/utils/dynamic_schema.py:34-43 | the column names of a table in order; the empty list for a missing table and for one whose introspection raises |
| DynamicSchema.SchemaManager.AddColumnToTable | src/backend/utils/dynamic_schema.py:83-111 | the statement is always logged; it commits iff the table exists, its actual columns lack the column and the engine accepts it, whether or not introspection works; the column is appended exactly when it commits |
| DynamicSchema.SchemaManager.SyncField | src/backend/utils/dynamic_schema.py:137-152 | one iteration: skip an existing column, report a protected field as False, else attempt the typed nullable column |
| DynamicSchema.SchemaManager.SyncModelWithRequest | src/backend/utils/dynamic_schema.py:113-154 | the report, statement log and table columns equal their specification, with the default protected list when none is given and the column list read once first; when that read fails every unprotected field is attempted and those already present report False as duplicates |
| DynamicSchema.SchemaManager.SyncFields | src/backend/utils/dynamic_schema.py:136-154 | the loop over all request items meets the specification |
| DynamicSchema.SchemaManager.SyncNext | src/backend/utils/dynamic_schema.py:136-152 | one loop turn moves the state from the first i items to the first i + 1 |
| DynamicSchema.SchemaManager.AutoEvolveSchema | src/backend/utils/dynamic_schema.py:157-176 | a synchronisation with the default protected fields `id`, `created_at`, `updated_at`, `hashed_password` |
| DynamicSchema.SchemaManager.GetDynamicColumns | src/backend/utils/dynamic_schema.py:179-201 | the table's columns, minus the six standard ones when excluding; all of them otherwise |
| DynamicSchema.Without | src/backend/utils/dynamic_schema.py:199 | the filtered list holds exactly the members not dropped |
| DynamicSchema.NewColumnsFromPrefix | src/backend/utils/dynamic_schema.py:136-152 | with distinct dict keys, no column added earlier in the loop bears the current field's name |
| DynamicSchema.FieldNotYetAdded | src/backend/utils/dynamic_schema.py:136-152 | the grown column list does not hold the current field yet, so its ALTER is not a duplicate |
| DynamicSchema.AttemptsStep | src/backend/utils/dynamic_schema.py:147-152 | one more attempt adds one statement and at most one column |
| DynamicSchema.ReportKeys | src/backend/utils/dynamic_schema.py:136-152 | a field has a report entry iff it was processed and is not an existing column |
| DynamicSchema.ReportEntry | src/backend/utils/dynamic_schema.py:141-152 | a protected field reports False; any other reports True iff its own ALTER commits |
| DynamicSchema.AttemptsAvoidProtectedAndExisting | src/backend/utils/dynamic_schema.py:138-145 | protected fields and existing columns never get an ALTER, and every added column is nullable |
| DynamicSchema.NewColumnsTyped | src/backend/utils/dynamic_schema.py:147-151 | each added column is nullable, not refused and typed from its request value |
| DynamicSchema.AttemptCount | src/backend/utils/dynamic_schema.py:136-151 | the number of statements is the number of distinct unseen, unprotected fields |
| DynamicSchema.SyncIdempotent | src/backend/utils/dynamic_schema.py:113-154 | re-running against the grown schema adds nothing: every field now exists, is protected or is refused again |
| DynamicSchema.NewColumnsAllRefused | src/backend/utils/dynamic_schema.py:108-111 | attempts the engine all refuses add no column |
| DynamicSchema.ColumnsOnlyGrow | src/backend/utils/dynamic_schema.py:83-111 | the old columns stay, in order, at the front |
| DynamicSchema.ExistingNeverReAdded | src/backend/utils/dynamic_schema.py:136-152 | when the column list was read, no field already present is ever added again |
| Records.AssignedIsLatest | src/backend/routers/students_denormalized.py:758-760 | after the setattr loop every attribute holds the last value the request gives it, or its old value; no attribute is added |
| Records.LatestUnnamed | src/backend/routers/students_denormalized.py:758-760 | an attribute the request does not name keeps its value |
| Records.Row.constructor | src/backend/routers/students_denormalized.py:753 | a row over the given attributes |
| Records.Row.SetAttributes | src/backend/routers/students_denormalized.py:758-760 | the row's attributes become the specified result of the setattr loop |
| Records.Row.RefreshFullName | src/backend/routers/students_denormalized.py:762-764 | `full_name` is recomputed from the stored names exactly when the update names either one; nothing else changes |
| Records.Row.RefreshClassSection | src/backend/routers/students_denormalized.py:765-768 | `class_section` becomes `class-section` exactly when the update names either part and both are set |
| Records.Row.Deactivate | src/backend/routers/students_denormalized.py:792-794 | soft delete: only `is_active` and `status` change |
| Records.Row.Touch | src/backend/routers/students_denormalized.py:770 | only `updated_at` changes, to the clock reading |
| Records.FirstMatch | src/backend/routers/students_denormalized.py:799 | the lowest matching account, or none when no account matches |
| Records.UserTable.constructor | src/backend/routers/students_denormalized.py:797-803 | a table over the given accounts |
| Records.UserTable.DeactivateFirst | src/backend/routers/students_denormalized.py:797-803 | only the first matching account changes: it is deactivated and its `updated_at` becomes the clock reading; with no match nothing changes |
| Records.CandidateInjective | src/backend/routers/students_denormalized.py:28-35 | different counters give different usernames |
| Records.CandidatesSize | src/backend/routers/students_denormalized.py:28-35 | the first n candidates are n distinct names |
| Records.CandidateFresh | src/backend/routers/students_denormalized.py:28-35 | each new candidate differs from all earlier ones |
| Records.TakenBound | src/backend/routers/students_denormalized.py:33-35 | the search fails n times only if n names are taken, so it ends |
| Records.GenerateUsername | src/backend/routers/students_denormalized.py:23-37 | the username is not taken and is the base name or the base followed by a counter of 2 or more |
| Records.ParseIsoDate | src/backend/routers/students_denormalized.py:108-112 | a parsed date is a valid calendar date whose year, month and day are the three dash-separated fields; the day may be one or two digits or a blank and one digit, as `%d` allows |
| Records.CalculateAge | src/backend/routers/students_denormalized.py:102-121 | raises exactly for a truthy value that is neither a string nor a date; no age for a missing, empty or unparseable date; otherwise the whole years lived: today is on or after the age-th birthday and before the next |
| Records.AgeUnique | src/backend/routers/students_denormalized.py:114-119 | only one number of years fits between two birthdays, so the age is determined |
| Records.IsoFormatRoundTrip | src/backend/routers/students_denormalized.py:108-112 | every valid date written in ISO form parses back to itself |
| Records.BlankPaddedDayParses | src/backend/routers/students_denormalized.py:108-112 | a day below 10 written as a blank and a digit parses to that date, as `%d` accepts it |
| Records.BirthOf | src/backend/routers/students_denormalized.py:108-119 | a string is parsed and a date taken as is; exactly a truthy number or boolean is a value `calculate_age` raises on |
| Records.AgeField | src/backend/routers/students_denormalized.py:114-121 | the age column: none when `calculate_age` raises, the number of years, or null |
| Records.UserSchool | src/backend/routers/students_denormalized.py:662-664 | the school row of the current user's school id, when there is a user and the id is stored |
| Records.LatestAppend | src/backend/routers/classes_denormalized.py:193-200 | after items are added to the update dict, a key's last value is the last added one, or its earlier last value when the added items do not name it |
| Records.PageNumber | src/backend/routers/students_denormalized.py:419 | the page is at least 1 and its rows contain row `skip` |
| Records.TotalPages | src/backend/routers/students_denormalized.py:421 | the fewest pages of `limit` rows that hold all `total` rows |
| Records.PageWithinTotal | src/backend/routers/students_denormalized.py:419-421 | a page that starts at an existing row is within the total page count |
| StudentsRouter.TrailingDigits | src/backend/routers/students_denormalized.py:60 | the captured run is all digits, ends the string and is maximal: the character before it is not a digit |
| StudentsRouter.MaxSerialIsMax | src/backend/routers/students_denormalized.py:58-67 | `max_num` bounds every serial found and is one of them unless it is 0 |
| StudentsRouter.WithPrefix | src/backend/routers/students_denormalized.py:55 | the values kept are exactly those starting with the prefix |
| StudentsRouter.TrailingDigitsAfter | src/backend/routers/students_denormalized.py:60 | after a prefix not ending in a digit, the captured run is the whole digit block |
| StudentsRouter.FindMaxSerial | src/backend/routers/students_denormalized.py:58-67 | the loop computes the largest trailing serial, 0 when there is none |
| StudentsRouter.Letters | src/backend/routers/students_denormalized.py:48 | only letters are kept |
| StudentsRouter.RollPrefix | src/backend/routers/students_denormalized.py:46-50 | the first two letters of the school name upper-cased, one letter if only one, `SC` with no name or no letters |
| StudentsRouter.GenerateRollNo | src/backend/routers/students_denormalized.py:40-70 | the prefix, then one more than the largest serial of the school's roll numbers with that prefix, padded to three digits |
| StudentsRouter.SerialAfterPrefix | src/backend/routers/students_denormalized.py:60-70 | a generated roll number starts with its prefix and reads back as its own serial |
| StudentsRouter.MaxSerialBoundsPrefixed | src/backend/routers/students_denormalized.py:55-67 | the next roll serial exceeds every serial already issued with that prefix, so the new roll number is new |
| StudentsRouter.AdmissionNo | src/backend/routers/students_denormalized.py:73-99 | the number starts with the year and has at least four more digits |
| StudentsRouter.GenerateAdmissionNo | src/backend/routers/students_denormalized.py:73-99 | the loop computes that number |
| StudentsRouter.AdmissionNoRepeatsYear | src/backend/routers/students_denormalized.py:89-99 | as written, the first number of a year is `<year>0001` and the second repeats the year, `<year><year>0002`, instead of `<year>0002` |
| StudentsRouter.FirstAdmissionNo | src/backend/routers/students_denormalized.py:87-99 | with no numbers yet for the year, the first one is `<year>0001` |
| StudentsRouter.SecondAdmissionNo | src/backend/routers/students_denormalized.py:89-99 | after `<year>0001` the whole number, year included, is taken as the serial |
| StudentsRouter.RenderingSerial | src/backend/routers/students_denormalized.py:60-63 | a decimal rendering reads back as its own value |
| StudentsRouter.NextUnpadded | src/backend/routers/students_denormalized.py:98-99 | the serial after `<year>0001` has more than four digits, so padding does not change it |
| StudentsRouter.AdmissionNoAfter | src/backend/routers/students_denormalized.py:84-99 | after a single number of the year with serial n comes the year followed by n + 1 padded to four digits |
| StudentsRouter.AdmissionNoFromMax | src/backend/routers/students_denormalized.py:84-99 | the number is the year followed by one more than the loop's maximum |
| StudentsRouter.YearThenBlock | src/backend/routers/students_denormalized.py:76 | `<year>0001` and `<year>0002`, the documented format, are the year followed by a four-digit block |
| StudentsRouter.NatToStringShift | src/backend/routers/students_denormalized.py:99 | shifting by k decimal places and adding r appends r's k digits to the rendering |
| StudentsRouter.MaxYearSerial | src/backend/routers/students_denormalized.py:74-99 | the intended maximum bounds every serial read after the year |
| StudentsRouter.IntendedAdmissionNo | src/backend/routers/students_denormalized.py:74-99 | the intended number: the year, then the next serial after the year, four digits wide |
| StudentsRouter.IntendedAdmissionNoCounts | src/backend/routers/students_denormalized.py:74-77 | with the year read off, the numbers of a year count `<year>0001`, `<year>0002` |
| StudentsRouter.Erase | src/backend/routers/students_denormalized.py:185 | `replace(pattern, '')` never lengthens the key |
| StudentsRouter.EraseAbsent | src/backend/routers/students_denormalized.py:185 | where the pattern does not occur, the key is unchanged |
| StudentsRouter.SuffixFrom | src/backend/routers/students_denormalized.py:183-224 | the first operator suffix in the chain's order that the key ends with, or none |
| StudentsRouter.SuffixOf | src/backend/routers/students_denormalized.py:183-224 | the suffix the elif chain picks, or none when the key ends with no operator suffix |
| StudentsRouter.FilterStep | src/backend/routers/students_denormalized.py:178-229 | a None value is skipped; an applied condition names an existing column with the given value; only an operator key can name a missing column |
| StudentsRouter.Map | src/backend/routers/students_denormalized.py:178 | one result per item, in order |
| StudentsRouter.FilterSteps | src/backend/routers/students_denormalized.py:178 | one step per filter item |
| StudentsRouter.FilterStepsAt | src/backend/routers/students_denormalized.py:178-229 | the step of item i is that item's own step |
| StudentsRouter.ApplyFilters | src/backend/routers/students_denormalized.py:173-231 | the loop yields the folded conditions, or the first key whose column is missing |
| StudentsRouter.FilterNext | src/backend/routers/students_denormalized.py:178-229 | one loop turn adds item i's condition, or ends with the failing key |
| StudentsRouter.FailureSticks | src/backend/routers/students_denormalized.py:186 | once `getattr` raises, later items do not matter |
| StudentsRouter.ConditionsWellFormed | src/backend/routers/students_denormalized.py:178-229 | every applied condition names an existing column, with no more conditions than items |
| StudentsRouter.SuffixOrder | src/backend/routers/students_denormalized.py:193-206 | `age__gte` means at least and `age__gt` means above, both on column `age`, because `__gte` is checked first |
| StudentsRouter.PrepareStudent | src/backend/routers/students_denormalized.py:642-723 | as written: raises whenever the user's school resolves (`school.name`), for an unusable date of birth, a non-string name or a missing `first_name`; otherwise the school id and name are the user's, every derived field is set and every other key keeps its sent value |
| StudentsRouter.StudentSchool | src/backend/routers/students_denormalized.py:654-673 | as written: raises iff the user's school resolves; otherwise `school_id` and `school_name` are the user's and nothing else changes |
| StudentsRouter.StudentSchoolIntended | src/backend/routers/students_denormalized.py:654-673 | intended: `school_id` is the user's and, when the school resolves, every school column is that school's; otherwise the user's school name; nothing else changes |
| StudentsRouter.AccountFields | src/backend/routers/students_denormalized.py:692-695 | raises iff a name is not a string; otherwise the roll number and the id of the created account; nothing else changes |
| StudentsRouter.StudentTail | src/backend/routers/students_denormalized.py:677-723 | after the school step: raises iff the age, a name or the missing `first_name` does; otherwise every derived field is set and nothing else changes |
| StudentsRouter.PrepareStudentIntended | src/backend/routers/students_denormalized.py:642-723 | intended: raises only for the date of birth, a name or a missing `first_name`; the school columns are the resolved school's, every derived field is set and every other key keeps its sent value |
| StudentsRouter.AdmissionFields | src/backend/routers/students_denormalized.py:677-689 | raises iff `calculate_age` does; otherwise the admission number (generated unless sent), today's admission date, `created_at`, `created_by` and the age; nothing else changes |
| StudentsRouter.NameFields | src/backend/routers/students_denormalized.py:699-716 | the full name when both names are sent; when `class_id` resolves the class name, year, room and class-teacher columns of that class and, with a section, `class_section`; nothing else changes |
| StudentsRouter.UpdateStudent | src/backend/routers/students_denormalized.py:742-773 | the row becomes the specified update: setattr, derived fields, timestamp |
| StudentsRouter.StudentUpdateKeys | src/backend/routers/students_denormalized.py:758-770 | an update removes no attribute and adds only `updated_at` and the derived ones |
| StudentsRouter.StudentUpdateOthers | src/backend/routers/students_denormalized.py:758-760 | every other attribute holds the last value sent for it, or keeps its value |
| StudentsRouter.StudentUpdatedKeeps | src/backend/routers/students_denormalized.py:762-770 | the refresh steps write only the derived fields and the timestamp |
| StudentsRouter.StudentUpdateFullName | src/backend/routers/students_denormalized.py:763-764 | sending either name recomputes `full_name` from the names after the update |
| StudentsRouter.StudentUpdatedName | src/backend/routers/students_denormalized.py:763-764 | that full name is the updated first and last name joined by a space |
| StudentsRouter.StudentUpdateKeepsClassSection | src/backend/routers/students_denormalized.py:766-768 | sending neither class nor section leaves `class_section` alone |
| StudentsRouter.SoftDeleteStudent | src/backend/routers/students_denormalized.py:778-805 | the row becomes inactive with a new timestamp, and the first account with its user id is deactivated with the same timestamp |
| TeachersRouter.TeacherCount | src/backend/routers/teachers_denormalized.py:41-45 | the teachers counted: all of them without a school, those of the school otherwise |
| TeachersRouter.SchoolCount | src/backend/routers/teachers_denormalized.py:43-45 | the count is the number of teachers of that school |
| TeachersRouter.EmployeeIdRoundTrip | src/backend/routers/teachers_denormalized.py:46 | the identifier is `TEACH` followed by the count plus one, unpadded, which reads back as that number |
| TeachersRouter.EmployeeIdInjective | src/backend/routers/teachers_denormalized.py:46 | different counts give different identifiers |
| TeachersRouter.EmployeeIdLength | src/backend/routers/teachers_denormalized.py:46 | the identifier is five characters plus the digits of the count plus one |
| TeachersRouter.PrepareTeacher | src/backend/routers/teachers_denormalized.py:280-321 | raises iff `calculate_age` does or a name is not a string; otherwise `school_id` is the user's, the school columns come from the resolved school (the user's school name when it does not resolve), the employee id is generated from that school's count unless sent, and joining date, age and full name are derived; every other key keeps its sent value |
| TeachersRouter.TeacherSchool | src/backend/routers/teachers_denormalized.py:293-305 | `school_id` from the user; the school columns of the resolved school, or the user's school name; nothing else changes |
| TeachersRouter.TeacherFields | src/backend/routers/teachers_denormalized.py:307-321 | raises iff `calculate_age` does or a name is not a string; otherwise employee id, joining date, age and full name are derived; nothing else changes |
| TeachersRouter.UpdateTeacher | src/backend/routers/teachers_denormalized.py:342-364 | the row becomes the specified update: setattr, full name, timestamp |
| TeachersRouter.TeacherUpdateKeys | src/backend/routers/teachers_denormalized.py:354-361 | an update removes no attribute and adds only `updated_at` and `full_name` |
| TeachersRouter.TeacherUpdateOthers | src/backend/routers/teachers_denormalized.py:354-356 | every other attribute holds the last value sent for it, or keeps its value |
| TeachersRouter.TeacherUpdateFullName | src/backend/routers/teachers_denormalized.py:358-359 | sending either name recomputes `full_name` from the updated names |
| TeachersRouter.TeacherUpdateKeepsFullName | src/backend/routers/teachers_denormalized.py:358-359 | sending neither name leaves `full_name` alone |
| TeachersRouter.SoftDeleteTeacher | src/backend/routers/teachers_denormalized.py:367-394 | the row becomes inactive with a new timestamp, and the first account with the teacher's email is deactivated with the same timestamp |
| ClassesRouter.Resolve | src/backend/routers/classes_denormalized.py:144-158 | a teacher id resolves iff it is truthy and names a stored teacher, and then gives that teacher's row |
| ClassesRouter.TeacherById | src/backend/routers/classes_denormalized.py:191-192 | the teacher row stored under a numeric id, or none |
| ClassesRouter.PreparedClassFields | src/backend/routers/classes_denormalized.py:143-169 | create sets the three class-teacher columns from a resolved teacher and `class_section` when both parts are sent; every other sent key keeps its value |
| ClassesRouter.LastNaming | src/backend/routers/classes_denormalized.py:154-159 | the last entry naming the subject with a resolved teacher, or none |
| ClassesRouter.SubjectMapIsLast | src/backend/routers/classes_denormalized.py:152-159 | the subject map holds exactly the subjects some entry names with a resolved teacher, and the later entry wins |
| ClassesRouter.FillDay | src/backend/routers/classes_denormalized.py:164-166 | each period of a day is filled, in order, with no period added or lost |
| ClassesRouter.ClassRequest.constructor | src/backend/routers/classes_denormalized.py:137-138 | the request dict with its subject teachers and timetable |
| ClassesRouter.ClassRequest.ResolveSubjectTeachers | src/backend/routers/classes_denormalized.py:152-159 | every resolving entry gets its teacher name in place, and the map is the specified subject map |
| ClassesRouter.ClassRequest.FillTimetable | src/backend/routers/classes_denormalized.py:161-166 | every period with a truthy subject in the map gets that subject's teacher; days and period counts stay |
| ClassesRouter.ClassRequest.SetClassSection | src/backend/routers/classes_denormalized.py:168-169 | `class_section` is set from class name and section exactly when both keys are sent |
| ClassesRouter.ClassRequest.SetClassTeacher | src/backend/routers/classes_denormalized.py:143-149 | the class-teacher columns are filled from the resolved teacher; subject teachers and timetable stay |
| ClassesRouter.ClassRequest.Prepare | src/backend/routers/classes_denormalized.py:143-169 | the whole rewrite create does before building the row: class teacher, subject teachers, timetable, class section |
| ClassesRouter.PeriodTeacher | src/backend/routers/classes_denormalized.py:152-166 | after the fill, a period with a mapped subject has the teacher of the last entry naming it; otherwise it keeps its teacher; its subject never changes |
| ClassesRouter.FilledIdempotent | src/backend/routers/classes_denormalized.py:164-166 | filling twice with the same map changes nothing more |
| ClassesRouter.UpdateClass | src/backend/routers/classes_denormalized.py:190-209 | the row becomes the specified update: teacher lookup, setattr, class section, timestamp |
| ClassesRouter.ClassUpdateSection | src/backend/routers/classes_denormalized.py:202-204 | sending class or section recomputes `class_section` when both are truthy afterwards |
| ClassesRouter.ClassUpdateFalsyKeeps | src/backend/routers/classes_denormalized.py:202-204 | with a falsy class name or section, `class_section` is what the setattr loop left |
| ClassesRouter.ClassUpdateTeacher | src/backend/routers/classes_denormalized.py:190-200 | a sent teacher id that resolves sets the three class-teacher columns to that teacher's values, whatever else was sent |
| ClassesRouter.ClassUpdateNoTeacher | src/backend/routers/classes_denormalized.py:190-200 | without a resolving teacher id the three class-teacher columns hold the last value sent for them, or keep theirs |
| ClassesRouter.TeacherItemsUnnamed | src/backend/routers/classes_denormalized.py:190-200 | the teacher lookup adds only the three class-teacher columns to the update |
| ClassesRouter.ClassUpdateOthers | src/backend/routers/classes_denormalized.py:198-200 | every attribute other than the teacher columns, the section and the timestamp holds the last value sent for it, or keeps its value |
| ClassesRouter.SoftDeleteClass | src/backend/routers/classes_denormalized.py:224-228 | only `is_active` and `status` change; unlike students and teachers, no timestamp |
| StudentManagement.FilterStudents | src/components/StudentManagement.tsx:338-348 | a student is kept iff the search is empty or a case-insensitive substring of a name or the admission number, and class, section and status match or are unrestricted |
| StudentManagement.FilterStudentsAppend | src/components/StudentManagement.tsx:338-348 | filtering keeps order: it distributes over concatenation |
| StudentManagement.SingleStatusFilter | src/components/StudentManagement.tsx:346 | a single status filter keeps exactly the students with that status that match the search |
| StudentManagement.PageCount | src/components/StudentManagement.tsx:350 | the fewest pages of ten that hold the filtered list |
| StudentManagement.Page | src/components/StudentManagement.tsx:351-354 | a page holds at most ten students |
| StudentManagement.FirstPagesPrefix | src/components/StudentManagement.tsx:351-354 | pages 1 to k, one after another, are the list's first 10k items |
| StudentManagement.PagesCover | src/components/StudentManagement.tsx:350-354 | the pages up to the page count cover the filtered list exactly once, in order |
| StudentManagement.PageOccupancy | src/components/StudentManagement.tsx:350-354 | every page up to the count is non-empty, and every page after it is empty |
| Common.ToggleMember | src/components/StudentManagement.tsx:382-386 | `toggleStatusFilter` flips the membership of that status and of no other |
| Common.ToggleMemberTwice | src/components/StudentManagement.tsx:382-386 | toggling a status on and then off gives the filter list back |
| StudentManagement.NonBlankLines | src/components/StudentManagement.tsx:393 | only lines that are not blank after trimming are kept |
| StudentManagement.NonBlankLinesKeep | src/components/StudentManagement.tsx:393 | a line is kept iff it is one of the lines and not blank |
| StudentManagement.NonBlankLinesAppend | src/components/StudentManagement.tsx:393 | the filter keeps order: it distributes over concatenation |
| StudentManagement.TrimAll | src/components/StudentManagement.tsx:398 | every value is trimmed, none added or lost |
| StudentManagement.MissingHeaders | src/components/StudentManagement.tsx:400 | a required header is reported iff the header line lacks it |
| StudentManagement.RowOf | src/components/StudentManagement.tsx:419-422 | the row object has exactly the headers as keys |
| StudentManagement.CheckRow | src/components/StudentManagement.tsx:413-436 | a line with the wrong column count is rejected with `Row i+1: Column count mismatch` before any other check; every rejection carries the row label |
| StudentManagement.CheckFields | src/components/StudentManagement.tsx:424-436 | the row passes the required-field check iff first name, last name and admission number are non-empty; an accepted row is the row itself |
| StudentManagement.AcceptedRowShape | src/components/StudentManagement.tsx:412-436 | an accepted row has every header as a key, the three required fields filled, and an admission number no loaded student has |
| StudentManagement.ParseCsv | src/components/StudentManagement.tsx:392-440 | fewer than two non-blank lines, or a missing required header, give no data and exactly one error; otherwise the data and errors are those the row loop specifies |
| StudentManagement.ParseRows | src/components/StudentManagement.tsx:412-437 | the loop pushes the accepted rows and the error messages in line order |
| StudentManagement.RowsNext | src/components/StudentManagement.tsx:412-437 | one more line adds its outcome to exactly one of the two lists |
| StudentManagement.EveryRowOnce | src/components/StudentManagement.tsx:412-437 | each data line lands in exactly one of data or errors |
| StudentManagement.InFileDuplicatesPass | src/components/StudentManagement.tsx:430-434 | a line accepted at one position is accepted at any other, so the same admission number twice in one file is not rejected |
| StudentManagement.ImportRows | src/components/StudentManagement.tsx:475-495 | one new student per accepted row, in order |
| StudentManagement.ConfirmImport | src/components/StudentManagement.tsx:474-497 | the loaded students stay first and unchanged; each imported one has a status (`Active` by default) |
| StudentManagement.ImportedIdsDistinct | src/components/StudentManagement.tsx:476 | two students imported in one batch never share an id |
| StudentManagement.EmailShapedLength | src/components/StudentManagement.tsx:1123 | an address the pattern accepts has at least five characters and an `@` |
| StudentManagement.StepRules | src/components/StudentManagement.tsx:1113-1139 | step 1 needs first name, last name and date of birth; step 2 only a well-shaped email when one is given; step 4 admission number, class and section; the other steps nothing |
| StudentManagement.AddStudentForm.constructor | src/components/StudentManagement.tsx:1113-1172 | the form starts at step 1 with no errors |
| StudentManagement.AddStudentForm.Next | src/components/StudentManagement.tsx:1164-1168 | the step's errors are shown, and the step advances, never past the last, only when there are none |
| StudentManagement.AddStudentForm.Back | src/components/StudentManagement.tsx:1170-1172 | one step back, never before the first |
| StudentManagement.AddGuardian | src/components/StudentManagement.tsx:1235-1250 | one blank guardian appended, primary iff the list was present and empty |
| StudentManagement.RemoveGuardian | src/components/StudentManagement.tsx:1258-1261 | only the guardian at the index is dropped; an index out of range changes nothing |
| StudentManagement.RemoveIndex | src/components/StudentManagement.tsx:1259 | the filter by index drops exactly that position |
| StudentManagement.SetPrimaryGuardian | src/components/StudentManagement.tsx:1263-1269 | every guardian keeps its values, and is primary iff it is at the index |
| StudentManagement.MarkPrimary | src/components/StudentManagement.tsx:1264-1267 | the map marks exactly the chosen position primary |
| StudentManagement.OnePrimary | src/components/StudentManagement.tsx:1263-1269 | after choosing a primary in range, exactly that guardian is primary |
| FieldKeys.SkipRun | src/components/StudentFieldsEditorV2.tsx:500 | one step of `[^a-z0-9]+` matching: the rest starts at a key character or is empty |
| FieldKeys.Collapse | src/components/StudentFieldsEditorV2.tsx:500 | every run of characters outside `[a-z0-9]` becomes one underscore: only `[a-z0-9_]`, never two underscores in a row, empty iff the input is |
| FieldKeys.StripLeading | src/components/StudentFieldsEditorV2.tsx:500 | the result is a tail of the input that does not start with `_` |
| FieldKeys.StripTrailing | src/components/StudentFieldsEditorV2.tsx:500 | the result is a head of the input that does not end with `_` |
| FieldKeys.GenerateKeyWellFormed | src/components/StudentFieldsEditorV2.tsx:499-501 | a generated key uses only `[a-z0-9_]`, has no `_` at either end and no `__`; the same function is at StudentFieldsEditor.tsx:275-277 and FieldEditorSettings.tsx:332-334 |
| FieldKeys.SuffixKeeps | src/components/StudentFieldsEditorV2.tsx:500 | trimming leading underscores keeps a key well formed |
| FieldKeys.PrefixKeeps | src/components/StudentFieldsEditorV2.tsx:500 | trimming trailing underscores keeps a key well formed |
| FieldKeys.CollapseFixed | src/components/StudentFieldsEditorV2.tsx:500 | the replacement changes nothing in a string that is already collapsed |
| FieldKeys.LowerKeyCharset | src/components/StudentFieldsEditorV2.tsx:500 | lower-casing leaves a key alone |
| FieldKeys.GenerateKeyIdempotent | src/components/StudentFieldsEditorV2.tsx:499-501 | generating a key from a generated key gives it back |
| FieldKeys.BlankRunsToUnderscore | src/components/ClassCustomFields.tsx:378 | after `replace(/\s+/g, '_')` no blank is left, and a label without blanks is unchanged |
| FieldKeys.KeepKeyChars | src/components/ClassCustomFields.tsx:378 | only `[a-z0-9_]` is kept, and a string that has nothing else is unchanged |
| FieldKeys.CustomFieldKey | src/components/ClassCustomFields.tsx:376-379 | the derived key uses only `[a-z0-9_]`; the same derivation is at AttendanceCustomFields.tsx:364-367 |
| FieldKeys.CustomFieldKeyIdempotent | src/components/ClassCustomFields.tsx:376-379 | deriving a key from a derived key gives it back |
| FieldKeys.CustomFieldKeyDoubleUnderscore | src/components/ClassCustomFields.tsx:378 | unlike `generateKey`, the label `a - b` gives `a__b`, two underscores in a row |
| FieldSections.FindSection | src/components/StudentFieldsEditorV2.tsx:977 | the first section with the id, or none when no section has it |
| FieldSections.Moved | src/components/StudentFieldsEditorV2.tsx:982-984 | the two splices move the element from the drag index to the hover index and shift the ones in between |
| FieldSections.MovedMultiset | src/components/StudentFieldsEditorV2.tsx:982-984 | the move keeps every element, as often as it was there |
| FieldSections.Renumber | src/components/StudentFieldsEditorV2.tsx:986 | every field's `order` becomes its position, and nothing else changes |
| FieldSections.Unordered | src/components/StudentFieldsEditorV2.tsx:986 | the same fields with their position forgotten |
| FieldSections.MoveFields | src/components/StudentFieldsEditorV2.tsx:981-986 | after the move, `order` is the position, the dragged field is at the hover index, and each field comes from its source position |
| FieldSections.UnorderedMoved | src/components/StudentFieldsEditorV2.tsx:982-986 | forgetting positions commutes with the move |
| FieldSections.UnorderedRenumber | src/components/StudentFieldsEditorV2.tsx:986 | renumbering changes only positions |
| FieldSections.MovePermutes | src/components/StudentFieldsEditorV2.tsx:981-986 | a move is a permutation of the same fields, only `order` changes; also StudentFieldsEditor.tsx:471-492, FieldEditorSettings.tsx:545-569 and TeacherFieldsEditor.tsx:338-351 |
| FieldSections.ToggleOpen | src/components/StudentFieldsEditorV2.tsx:962-971 | only the section with the id flips `isOpen`; also StudentFieldsEditor.tsx:460-469 and FieldEditorSettings.tsx:531-543 |
| FieldSections.ToggleOpenTwice | src/components/StudentFieldsEditorV2.tsx:962-971 | toggling a section twice gives the sections back |
| FieldSections.RemoveField | src/components/StudentFieldsEditorV2.tsx:1016 | the fields kept are exactly those with another id |
| FieldSections.DeleteFieldIn | src/components/StudentFieldsEditorV2.tsx:1010-1021 | only the field with the id, in only the section with the id, is removed; also StudentFieldsEditor.tsx:508-519 and FieldEditorSettings.tsx:585-599 |
| FieldSections.MoveIn | src/components/StudentFieldsEditorV2.tsx:973-994 | only the first section with the id changes, by the renumbered move; an unknown id leaves every section as it was |
| FieldSections.MergeInto | src/components/StudentFieldsEditorV2.tsx:1058-1062 | the dialog's values go into the fields with the edited id and no others |
| FieldSections.SaveIn | src/components/StudentFieldsEditorV2.tsx:1023-1070 | only the current section changes; an unknown section id leaves the list as it was; also StudentFieldsEditor.tsx:521-561 and FieldEditorSettings.tsx:601-644 |
| FieldSections.SaveAddsOne | src/components/StudentFieldsEditorV2.tsx:1033-1056 | add mode appends exactly one field, last, not a system field, numbered with the old field count |
| FieldSections.SaveEditsOne | src/components/StudentFieldsEditorV2.tsx:1057-1063 | edit mode changes only the field with the edited id, and it keeps its id, system flag and position |
| FieldEditors.LabelChanged | src/components/StudentFieldsEditorV2.tsx:503-509 | the label is taken; while adding the key is regenerated and well formed, while editing it stays; the other values stay; also StudentFieldsEditor.tsx:279-285 |
| FieldEditors.LabelChangedStable | src/components/StudentFieldsEditorV2.tsx:503-509 | retyping the same label while adding gives the same key, and typing a generated key as the label keeps it |
| FieldEditors.CheckedSave | src/components/StudentFieldsEditorV2.tsx:511-518 | the dialog hands its data on iff both label and key are non-empty |
| FieldEditors.UncheckedSaveAddsBlank | src/components/StudentFieldsEditor.tsx:287-290 | the older dialog checks nothing: a field with an empty label and key is appended all the same; so is FieldEditorSettings.tsx:344-347 |
| FieldEditors.Splice | src/components/StudentFieldsEditorV2.tsx:982-984 | the two splices on a copied array yield the specified move |
| FieldEditors.MoveOnCopy | src/components/StudentFieldsEditorV2.tsx:974-993 | the copied tab's sections become the specified move in the found section |
| FieldEditors.SaveOnCopy | src/components/StudentFieldsEditorV2.tsx:1024-1070 | the copied tab's sections become the specified save in the current section |
| FieldEditors.TabbedFieldsEditor.constructor | src/components/StudentFieldsEditorV2.tsx:962-1070 | the editor starts on a tab it has, in add mode with nothing being edited |
| FieldEditors.TabbedFieldsEditor.ToggleSection | src/components/StudentFieldsEditorV2.tsx:962-971 | only the active tab's sections change, by the toggle |
| FieldEditors.TabbedFieldsEditor.MoveField | src/components/StudentFieldsEditorV2.tsx:973-994 | only the active tab's sections change, by the move; also StudentFieldsEditor.tsx:471-492 |
| FieldEditors.TabbedFieldsEditor.AddField | src/components/StudentFieldsEditorV2.tsx:996-1001 | the dialog opens in add mode on that section; no section changes |
| FieldEditors.TabbedFieldsEditor.EditField | src/components/StudentFieldsEditorV2.tsx:1003-1008 | the dialog opens in edit mode on that field of that section; no section changes |
| FieldEditors.TabbedFieldsEditor.DeleteField | src/components/StudentFieldsEditorV2.tsx:1010-1021 | with confirmation only the active tab changes, by the delete; without it nothing changes |
| FieldEditors.TabbedFieldsEditor.SaveField | src/components/StudentFieldsEditorV2.tsx:1023-1070 | only the active tab's sections change, by the save in the current section; also StudentFieldsEditor.tsx:521-561 |
| FieldEditors.TabbedFieldsEditor.SubmitDialog | src/components/StudentFieldsEditorV2.tsx:511-518 | the save is accepted iff label and key are non-empty, and then the active tab changes by the save; otherwise nothing changes |
| FieldEditors.WithCell | src/components/FieldEditorSettings.tsx:531-543 | the module table with one cell replaced, same modules |
| FieldEditors.WithCellOthers | src/components/FieldEditorSettings.tsx:531-644 | every other module, and every other tab of the module, stays as it was |
| FieldEditors.ModuleFieldsEditor.constructor | src/components/FieldEditorSettings.tsx:531-644 | the editor starts on a module and tab it has, in add mode |
| FieldEditors.ModuleFieldsEditor.ToggleSection | src/components/FieldEditorSettings.tsx:531-543 | only the selected cell changes, by the toggle |
| FieldEditors.ModuleFieldsEditor.MoveField | src/components/FieldEditorSettings.tsx:545-569 | only the selected cell changes, by the move |
| FieldEditors.ModuleFieldsEditor.AddField | src/components/FieldEditorSettings.tsx:571-576 | the dialog opens in add mode; no cell changes |
| FieldEditors.ModuleFieldsEditor.EditField | src/components/FieldEditorSettings.tsx:578-583 | the dialog opens in edit mode on the field; no cell changes |
| FieldEditors.ModuleFieldsEditor.DeleteField | src/components/FieldEditorSettings.tsx:585-599 | with confirmation only the selected cell changes, by the delete |
| FieldEditors.ModuleFieldsEditor.SaveField | src/components/FieldEditorSettings.tsx:601-644 | only the selected cell changes, by the save; no validation first |
| TeacherFieldsEditor.MoveAll | src/components/TeacherFieldsEditor.tsx:338-351 | as many sections as before; each section with that id has its fields moved and renumbered by position, the others stay |
| TeacherFieldsEditor.MoveAllPermutes | src/components/TeacherFieldsEditor.tsx:338-351 | other sections are untouched, and a moved section holds the same fields, up to their order numbers, as a permutation |
| TeacherFieldsEditor.FieldToSave | src/components/TeacherFieldsEditor.tsx:387-407 | the edited field's id when it has one, a fresh id otherwise; never a system field; order 0; the rest from the dialog |
| TeacherFieldsEditor.ReplaceById | src/components/TeacherFieldsEditor.tsx:414-418 | same length; every field with that id is replaced, the others stay |
| TeacherFieldsEditor.TeacherSaveIn | src/components/TeacherFieldsEditor.tsx:384-431 | a blank label or key changes nothing; sections other than the selected one never change |
| TeacherFieldsEditor.SaveAll | src/components/TeacherFieldsEditor.tsx:410-428 | each selected section gets the save, each other section stays |
| TeacherFieldsEditor.TeacherEditReplaces | src/components/TeacherFieldsEditor.tsx:414-418 | an edited field is replaced whole: its id stays, everything else comes from the dialog, and its order becomes 0 |
| TeacherFieldsEditor.TeacherAddAppends | src/components/TeacherFieldsEditor.tsx:419-423 | adding appends exactly one custom field, numbered with the previous field count |
| TeacherFieldsEditor.EditWithoutSelectionLost | src/components/TeacherFieldsEditor.tsx:367-371 | a save after an edit, while the selection does not name the field's section, leaves every section as it was |
| TeacherFieldsEditor.TeacherFieldsEditor.constructor | src/components/TeacherFieldsEditor.tsx:313-327 | nothing selected, nothing being edited, an empty dialog, closed |
| TeacherFieldsEditor.TeacherFieldsEditor.ToggleSection | src/components/TeacherFieldsEditor.tsx:331-337 | only the active tab's sections change, by the toggle |
| TeacherFieldsEditor.TeacherFieldsEditor.MoveField | src/components/TeacherFieldsEditor.tsx:338-351 | only the active tab's sections change, by the move |
| TeacherFieldsEditor.TeacherFieldsEditor.HandleAddField | src/components/TeacherFieldsEditor.tsx:353-365 | selects the section and opens an empty dialog in add mode; no section changes |
| TeacherFieldsEditor.TeacherFieldsEditor.HandleEditField | src/components/TeacherFieldsEditor.tsx:367-371 | opens the dialog on the field, and the selection stays whatever it was |
| TeacherFieldsEditor.TeacherFieldsEditor.HandleEditFieldIntended | src/components/TeacherFieldsEditor.tsx:367-371 | the intended handler: the same, and the field's own section becomes selected |
| TeacherFieldsEditor.TeacherFieldsEditor.DeleteField | src/components/TeacherFieldsEditor.tsx:373-382 | only the active tab's sections change, by the delete, with no confirmation |
| TeacherFieldsEditor.TeacherFieldsEditor.SaveField | src/components/TeacherFieldsEditor.tsx:384-431 | the active tab becomes the save into the selected section; a blank label or key changes nothing, otherwise the dialog closes and nothing is being edited |
| TeacherFieldsEditor.IntendedEditApplies | src/components/TeacherFieldsEditor.tsx:367-431 | with the intended handler, saving the edit replaces the field in its own section |
| CustomFields.FormLabelChanged | src/components/ClassCustomFields.tsx:376-379 | the label is taken and the key is derived from it in the key charset; nothing else changes; also AttendanceCustomFields.tsx:364-367 |
| CustomFields.FormLabelChangedStable | src/components/ClassCustomFields.tsx:376-379 | typing the derived key back as the label derives the same key |
| CustomFields.NonBlankOptions | src/components/ClassCustomFields.tsx:115 | exactly the options that are not blank after trimming are kept |
| CustomFields.NewConfigField | src/components/ClassCustomFields.tsx:105-116 | id `c` + (count + 1), never a system field, in the selected section, options only for a dropdown and only non-blank ones |
| CustomFields.HandleAddField | src/components/ClassCustomFields.tsx:104-130 | the list grows by exactly the new field at its end; the dialog closes and resets; also AttendanceCustomFields.tsx:98-124 |
| CustomFields.WithoutId | src/components/ClassCustomFields.tsx:134 | exactly the fields with another id are kept |
| CustomFields.HandleDeleteField | src/components/ClassCustomFields.tsx:132-136 | confirmed, exactly the fields with another id remain; not confirmed, nothing changes; also AttendanceCustomFields.tsx:126-130 |
| CustomFields.AddAfterDeleteRepeatsId | src/components/ClassCustomFields.tsx:106 | numbering by length gives a second field `c2` after `c1` is deleted from `c1`, `c2` |
| CustomFields.InSection | src/components/ClassCustomFields.tsx:138-143 | exactly the fields of that section are kept |
| CustomFields.InSectionAppend | src/components/ClassCustomFields.tsx:138-143 | filtering keeps order: it distributes over concatenation |
| CustomFields.FieldsBySection | src/components/ClassCustomFields.tsx:138-143 | exactly the system and custom fields of the tab, as many as both filters give; also AttendanceCustomFields.tsx:132-137 |
| CustomFields.SystemFieldsFirst | src/components/ClassCustomFields.tsx:138-143 | no custom field is listed before a system field |
| CustomFields.RenderFieldsList | src/components/AttendanceCustomFields.tsx:150-153 | every card of a tab gets the same list, whatever the card's name; so does ClassCustomFields.tsx:157-160 |
| CustomFields.HandleToggle | src/components/ClassCustomFields.tsx:96-102 | only the toggled card flips in the expanded set; also AttendanceCustomFields.tsx:90-96 |
| Marks.SheetGrade | src/components/MarksEntry.tsx:108-117 | the grade is the band whose lower mark the marks reach and whose better neighbour's they do not; F exactly below 35 |
| Marks.SheetGradeMonotone | src/components/MarksEntry.tsx:108-117 | more marks never give a worse grade |
| Marks.Updated | src/components/MarksEntry.tsx:120-143 | identity kept; marks set with the grade recomputed only when non-empty and the student sits the exam; absent and exempted clear marks, grade and each other; remarks alone; exclusivity of the two flags preserved |
| Marks.UpdateRecord | src/components/MarksEntry.tsx:123-140 | the copy-then-adjust callback yields the specified row |
| Marks.MarksSheet.constructor | src/components/MarksEntry.tsx:25 | the sheet holds the given rows |
| Marks.MarksSheet.UpdateStudent | src/components/MarksEntry.tsx:119-144 | rows with that id get the update, the others stay; no row becomes both absent and exempted |
| Marks.StatsPartition | src/components/MarksEntry.tsx:146-152 | with exclusive flags, entered + absent + exempted + pending counts every row exactly once |
| Marks.FindBand | src/components/TeacherMarksEntry.tsx:56 | the first band holding the percentage, or none when no band holds it |
| Marks.TeacherGrade | src/components/TeacherMarksEntry.tsx:53-58 | no marks, or no maximum, gives `-` |
| Marks.FindBandGaps | src/components/TeacherMarksEntry.tsx:42-58 | the table finds no band exactly for percentages between two bands (above 90 and below 91, and so on) or outside 0..100 |
| Marks.GapExample | src/components/TeacherMarksEntry.tsx:42-58 | 6.5 out of 20 (32.5%) gets `-` |
| Marks.FindRoll | src/components/TeacherMarksEntry.tsx:83 | the first row with that roll number, or none when there is none |
| Marks.WithMarks | src/components/TeacherMarksEntry.tsx:95-103 | rows with that roll number take the marks and the grade recomputed from them; the others stay |
| Marks.WithRemarks | src/components/TeacherMarksEntry.tsx:106-110 | rows with that roll number take the remarks; the others stay |
| Marks.RemarksKeepMissing | src/components/TeacherMarksEntry.tsx:106-123 | a remarks change leaves the missing-marks count, and so what submit does, unchanged |
| Marks.MissingMarks | src/components/TeacherMarksEntry.tsx:118 | at most the row count; zero exactly when every row has marks |
| Marks.TeacherMarksSheet.constructor | src/components/TeacherMarksEntry.tsx:77-79 | the given rows, a draft, the dialog closed |
| Marks.TeacherMarksSheet.HandleMarksChange | src/components/TeacherMarksEntry.tsx:81-104 | accepted exactly when not above the first matching row's maximum and not negative; then the rows take the marks, otherwise nothing changes |
| Marks.TeacherMarksSheet.HandleRemarksChange | src/components/TeacherMarksEntry.tsx:106-110 | the rows take the remarks; nothing else changes |
| Marks.TeacherMarksSheet.HandleSaveDraft | src/components/TeacherMarksEntry.tsx:112-115 | the sheet becomes a draft; nothing else changes |
| Marks.TeacherMarksSheet.HandleSubmit | src/components/TeacherMarksEntry.tsx:117-126 | the confirmation opens exactly when no row is missing marks |
| Marks.TeacherMarksSheet.ConfirmSubmit | src/components/TeacherMarksEntry.tsx:128-132 | no longer a draft, dialog closed, rows unchanged |
| Marks.AcceptedMarksInRange | src/components/TeacherMarksEntry.tsx:81-104 | a value the sheet takes lies between 0 and the maximum of every row it lands in, when those rows share a maximum |
| Marks.Counted | src/components/StudentMarksView.tsx:158 | exactly the positive percentages are kept |
| Marks.MinOf | src/components/StudentMarksView.tsx:157-195 | a member no larger than any other |
| Marks.MaxOf | src/components/StudentMarksView.tsx:157-195 | a member no smaller than any other |
| Marks.SumBounds | src/components/StudentMarksView.tsx:161 | the sum of n values between lo and hi lies between n·lo and n·hi |
| Marks.MeanWithin | src/components/StudentMarksView.tsx:161-162 | the mean of values between two bounds lies between them |
| Marks.Average | src/components/StudentMarksView.tsx:161-162 | the mean lies between the smallest and the largest percentage |
| Marks.CbseGrade | src/components/StudentMarksView.tsx:168-192 | E exactly below 33, A1 exactly from 91 |
| Marks.CbseGpaMonotone | src/components/StudentMarksView.tsx:168-192 | a higher average never gives a lower grade point |
| Marks.CbseAgreesWithBands | src/components/StudentMarksView.tsx:168-192 | wherever the teacher sheet's table finds a band, both tables give the same grade |
| Marks.OverallGpa | src/components/StudentMarksView.tsx:157-195 | nothing counted gives 0, `-`, 0; otherwise a percentage between the smallest and largest counted one, graded by the CBSE bands |
| Gradebook.CompletedOf | src/components/ClassGradebook.tsx:204-213 | never more than the number of assessments |
| Gradebook.CalculateTotal | src/components/ClassGradebook.tsx:200-221 | the loop's counters are the sum of present grades, the sum of maxima, the number graded, the number of assessments, and the guarded percentage; ExamsGrades.tsx:125-136 computes the first three parts of the same |
| Gradebook.TotalWithinMax | src/components/ClassGradebook.tsx:200-221 | with every grade in range the total lies between 0 and the maximum total |
| Gradebook.PercentageBounded | src/components/ClassGradebook.tsx:200-221 | with every grade in range the percentage lies between 0 and 100 |
| Gradebook.RatioBounded | src/components/ClassGradebook.tsx:217 | a part of a whole is between 0 and 100 percent of it, and a zero whole gives 0 |
| Gradebook.GetMissingCount | src/components/ClassGradebook.tsx:223-236 | the nested loops count exactly the empty cells of the grid; also ExamsGrades.tsx:205-215 |
| Gradebook.RowCells | src/components/ClassGradebook.tsx:223-236 | in one row, empty plus graded cells make the number of assessments |
| Gradebook.GridCells | src/components/ClassGradebook.tsx:238-242 | empty plus filled cells make rows times assessments |
| Gradebook.CompletionRate | src/components/ClassGradebook.tsx:238-242 | the completion rate lies between 0 and 100 |
| Gradebook.FindAssessment | src/components/ClassGradebook.tsx:144 | the first assessment with that id, or none when there is none |
| Gradebook.SetCell | src/components/ClassGradebook.tsx:156-165 | rows with that id get the cell set, the others stay |
| Gradebook.SetCellOnly | src/components/ClassGradebook.tsx:156-165 | a change touches exactly one cell: that student's, that assessment's |
| Gradebook.ClassGradebook.constructor | src/components/ClassGradebook.tsx:124-128 | unlocked, unpublished, nothing unsaved |
| Gradebook.ClassGradebook.HandleGradeChange | src/components/ClassGradebook.tsx:137-167 | accepted exactly when unlocked, within the maximum and not negative; then the cell is set and changes are unsaved; otherwise nothing changes; a locked book keeps nothing unsaved |
| Gradebook.ClassGradebook.HandleSave | src/components/ClassGradebook.tsx:169-173 | nothing unsaved afterwards; grades and flags unchanged |
| Gradebook.ClassGradebook.HandleLock | src/components/ClassGradebook.tsx:175-183 | locks exactly when nothing is unsaved |
| Gradebook.ClassGradebook.HandleUnlock | src/components/ClassGradebook.tsx:185-188 | always unlocks; publishing is not undone |
| Gradebook.ClassGradebook.HandlePublish | src/components/ClassGradebook.tsx:190-198 | publishes exactly when locked; never unpublishes |
| Gradebook.NegativeGradeOnlyInExams | src/components/ExamsGrades.tsx:138-162 | a negative grade is taken by the exams sheet and refused by the class gradebook |
| Gradebook.ExamsGrades.constructor | src/components/ExamsGrades.tsx:117-119 | unlocked and unpublished |
| Gradebook.ExamsGrades.HandleGradeChange | src/components/ExamsGrades.tsx:138-162 | accepted exactly when unlocked and within the maximum; then the cell is set, otherwise nothing changes |
| Gradebook.ExamsGrades.HandleLockGrades | src/components/ExamsGrades.tsx:164-168 | always locks |
| Gradebook.ExamsGrades.HandleUnlockGrades | src/components/ExamsGrades.tsx:170-173 | always unlocks; publishing is not undone |
| Gradebook.ExamsGrades.HandlePublishGrades | src/components/ExamsGrades.tsx:175-183 | publishes exactly when locked; never unpublishes |
| Password.HasClassAppend | src/components/ChangePasswordPage.tsx:36-38 | a character class found in a password is still found after more characters are appended |
| Password.Strength | src/components/ChangePasswordPage.tsx:27-41 | never above 100; 0 for the empty password |
| Password.ComputeStrength | src/components/ChangePasswordPage.tsx:27-41 | the effect's counter ends at the password's strength |
| Password.HasClassLoop | src/components/ChangePasswordPage.tsx:36-38 | the scan finds a character of the class exactly when the password has one |
| Password.StrengthMonotone | src/components/ChangePasswordPage.tsx:27-41 | appending characters to a non-empty password never lowers its strength |
| Password.StrengthColor | src/components/ChangePasswordPage.tsx:43-47 | red exactly below 40, green exactly from 70, yellow between |
| Password.NewPasswordError | src/components/ChangePasswordPage.tsx:57-67 | the first rule that fails, in the order length, lowercase, uppercase, digit, symbol; none exactly when all hold |
| Password.ValidatePassword | src/components/ChangePasswordPage.tsx:49-77 | an old-password error exactly when it is empty, the new-password error exactly when a rule fails, a mismatch error exactly when the two differ, no other key; valid exactly when no error |
| Password.AcceptedIsStrong | src/components/ChangePasswordPage.tsx:27-67 | a new password that passes every rule has strength at least 85 and a green meter |
| DailyAttendance.UpdateStatus | src/components/DailyAttendance.tsx:56-58 | same length; rows with that id take the status, the others stay |
| DailyAttendance.UpdateNote | src/components/DailyAttendance.tsx:60-62 | same length; rows with that id take the reason or remark, the others stay |
| DailyAttendance.MarkAll | src/components/DailyAttendance.tsx:64-70 | every row takes the status, reasons and remarks kept |
| DailyAttendance.ClearAll | src/components/DailyAttendance.tsx:72-74 | every row back to present with reason and remark emptied |
| DailyAttendance.Count | src/components/DailyAttendance.tsx:108-111 | never more than the class size |
| DailyAttendance.CountsPartition | src/components/DailyAttendance.tsx:108-112 | the five status counts add up to the class size; the half-day count is the one the summary omits |
| DailyAttendance.MarkAllCount | src/components/DailyAttendance.tsx:64-70 | after marking everybody, that status's count is the class size |
| DailyAttendance.UpdateStatusCount | src/components/DailyAttendance.tsx:56-58 | with distinct ids one status change raises that status's count by at most one and never lowers it |
| DailyAttendance.UpdateStatusAbsent | src/components/DailyAttendance.tsx:56-58 | an id nobody has changes nothing |
| DailyAttendance.AttendanceSheet.constructor | src/components/DailyAttendance.tsx:53-54 | the given students, unlocked |
| DailyAttendance.AttendanceSheet.UpdateStudentStatus | src/components/DailyAttendance.tsx:56-58 | the students become the status update; the lock stays |
| DailyAttendance.AttendanceSheet.UpdateStudentField | src/components/DailyAttendance.tsx:60-62 | the students become the note update; the lock stays |
| DailyAttendance.AttendanceSheet.MarkAllPresent | src/components/DailyAttendance.tsx:64-66 | every student present |
| DailyAttendance.AttendanceSheet.MarkAllAbsent | src/components/DailyAttendance.tsx:68-70 | every student absent |
| DailyAttendance.AttendanceSheet.Clear | src/components/DailyAttendance.tsx:72-74 | every student cleared |
| DailyAttendance.AttendanceSheet.LockAttendance | src/components/DailyAttendance.tsx:80-85 | locked once confirmed, and nothing unlocks |
| AttendanceCalendar.CellAt | src/components/StudentAttendanceView.tsx:110-124 | a grid position holds a day exactly when it lies between the first weekday and the last day, and then the day it counts to |
| AttendanceCalendar.DaysBefore | src/components/StudentAttendanceView.tsx:108-124 | never more than the days of the month |
| AttendanceCalendar.GenerateCalendar | src/components/StudentAttendanceView.tsx:99-127 | the loops build just enough weeks for the month (at most 6), seven cells each, each cell the day of its position or empty |
| AttendanceCalendar.Flatten | src/components/StudentAttendanceView.tsx:99-127 | seven cells per week, read row by row |
| AttendanceCalendar.UpTo | src/components/StudentAttendanceView.tsx:108-124 | the days 1 to n in order |
| AttendanceCalendar.Cells | src/components/StudentAttendanceView.tsx:110-124 | the first n grid positions |
| AttendanceCalendar.CellsDays | src/components/StudentAttendanceView.tsx:110-124 | the first n positions hold, in order, exactly the days before position n |
| AttendanceCalendar.DaysBeforeStep | src/components/StudentAttendanceView.tsx:117-120 | each position adds its own day, if any, to the days before it |
| AttendanceCalendar.FlatAt | src/components/StudentAttendanceView.tsx:110-124 | position p of the weeks read row by row is grid position p |
| AttendanceCalendar.CalendarDaysInOrder | src/components/StudentAttendanceView.tsx:99-127 | reading the filled cells gives exactly 1 to the last day: none dropped, none repeated |
| AttendanceCalendar.LeadingBlanks | src/components/StudentAttendanceView.tsx:113-115 | the first week opens with exactly as many empty cells as the weekday of the first, then day 1 |
| AttendanceCalendar.TwoDigits | src/components/StudentAttendanceView.tsx:131 | padding a number below 100 gives exactly two digits |
| AttendanceCalendar.DateKeyFields | src/components/StudentAttendanceView.tsx:131 | the date key is the year, a dash, two month digits, a dash, two day digits, and reads back to month and day |
| AttendanceCalendar.FindStatus | src/components/StudentAttendanceView.tsx:132-133 | a status found is non-empty |
| AttendanceCalendar.FindStatusFirst | src/components/StudentAttendanceView.tsx:131-133 | the status of the first record of that date, or none when that status is empty |
| AttendanceCalendar.FindStatusAbsent | src/components/StudentAttendanceView.tsx:131-133 | no record of that date gives none |
| AttendanceCalendar.DateStatus | src/components/StudentAttendanceView.tsx:129-134 | an empty cell or day 0 has no status; any other day is looked up by its key |
| AttendanceCalendar.StatusBadge | src/components/StudentAttendanceView.tsx:69-73 | Excellent exactly from 90, Good exactly from 75 below 90, Needs Attention exactly below 75 |
| AttendanceCalendar.BadgeMonotone | src/components/StudentAttendanceView.tsx:69-73 | a higher percentage never earns a lower badge |
| ExamSetup.FormOf | src/components/AdminExamSetup.tsx:144-148 | an exam's form, saved under its own id, gives the exam back |
| ExamSetup.ExamOf | src/components/AdminExamSetup.tsx:157-164 | the exam takes the given id and the form's values |
| ExamSetup.ReplaceExam | src/components/AdminExamSetup.tsx:156-158 | same length; the exam with the id gets the form's values and keeps its id, the others stay |
| ExamSetup.ReplaceKeepsIds | src/components/AdminExamSetup.tsx:156-158 | editing never changes any exam's id |
| ExamSetup.WithoutExam | src/components/AdminExamSetup.tsx:170-173 | exactly the exams with another id remain |
| ExamSetup.DeleteUndoesAdd | src/components/AdminExamSetup.tsx:159-173 | deleting an exam just added under a fresh id gives the list back |
| ExamSetup.ExamSetupScreen.constructor | src/components/AdminExamSetup.tsx:127-130 | the given exams, the dialog closed, nothing being edited |
| ExamSetup.ExamSetupScreen.HandleAddExam | src/components/AdminExamSetup.tsx:132-142 | nothing being edited, the dialog open on the defaults FA, Term 1, weightage 10; the exams unchanged |
| ExamSetup.ExamSetupScreen.HandleEditExam | src/components/AdminExamSetup.tsx:144-148 | the exam being edited and its values in the form; the exams unchanged |
| ExamSetup.ExamSetupScreen.HandleSaveExam | src/components/AdminExamSetup.tsx:150-168 | an incomplete form changes nothing; editing replaces that exam; adding appends one exam under the new id; the dialog closes |
| ExamSetup.ExamSetupScreen.HandleDeleteExam | src/components/AdminExamSetup.tsx:170-173 | exactly the exams with another id remain |
| RolesPermissions.TogglePermission | src/components/RolesPermissionsTab.tsx:21-26 | the same roles; the toggled cell reads the opposite of before, every other cell reads as before; the role's map now stores that permission |
| RolesPermissions.ToggleTwice | src/components/RolesPermissionsTab.tsx:21-26 | toggling a cell twice reads the same everywhere as not toggling it |
| RolesPermissions.ToggleTwiceStored | src/components/RolesPermissionsTab.tsx:21-26 | when the cell was stored, toggling twice gives back the very same matrix |
| RolesPermissions.ToggleMissingGrants | src/components/RolesPermissionsTab.tsx:50 | a cell missing from the role's map shows unchecked, and one toggle checks it |
| TeacherTimetable.SavedSlot | src/components/TeacherTimetableTab.tsx:113-116 | the class picked; the subject picked, except that no class makes it a free period |
| TeacherTimetable.Teaching | src/components/TeacherTimetableTab.tsx:133 | never more than the day's periods |
| TeacherTimetable.Free | src/components/TeacherTimetableTab.tsx:137 | never more than the day's periods |
| TeacherTimetable.RowSplits | src/components/TeacherTimetableTab.tsx:132-138 | on one day, teaching plus free periods are all its periods |
| TeacherTimetable.TotalsCoverWeek | src/components/TeacherTimetableTab.tsx:132-138 | the two totals together count every slot of the week |
| TeacherTimetable.SameShapeSameCount | src/components/TeacherTimetableTab.tsx:132-138 | weeks with the same number of periods per day have the same number of slots |
| TeacherTimetable.SaveKeepsWeekSize | src/components/TeacherTimetableTab.tsx:110-138 | a save keeps the number of slots, so the two totals still add up to the same week |
| TeacherTimetable.TimetableTab.constructor | src/components/TeacherTimetableTab.tsx:88-93 | the given timetable, one array per weekday, nothing being edited, dialog closed |
| TeacherTimetable.TimetableTab.Rows | src/components/TeacherTimetableTab.tsx:132-138 | the slots of the given days, day by day |
| TeacherTimetable.TimetableTab.HandleEditSlot | src/components/TeacherTimetableTab.tsx:101-108 | the dialog opens on that slot, with its class and subject; no slot changes |
| TeacherTimetable.TimetableTab.HandleSaveSlot | src/components/TeacherTimetableTab.tsx:110-122 | with a day and a period being edited, exactly that slot takes the saved slot, in place, and the editing state clears; otherwise nothing changes |
| TeacherTimetable.TimetableTab.HandleCancelEdit | src/components/TeacherTimetableTab.tsx:124-130 | the dialog closes and the editing state empties; no slot changes |
| StudentFormGuardians.SetField | src/components/StudentFormFields.tsx:371 | the guardian's id and relation are kept |
| StudentFormGuardians.FindRelation | src/components/StudentFormFields.tsx:368 | the first guardian of that relation, or none when there is none |
| StudentFormGuardians.FindGuardian | src/components/StudentFormFields.tsx:363-364 | found exactly when the index search finds one, and then the guardian at that index |
| StudentFormGuardians.Upserted | src/components/StudentFormFields.tsx:367-379 | the first guardian of that relation gets the field, all others stay; with none, one new guardian is appended |
| StudentFormGuardians.UpdateGuardian | src/components/StudentFormFields.tsx:367-379 | the copy-and-assign yields the specified list |
| StudentFormGuardians.UpdateReadsBack | src/components/StudentFormFields.tsx:363-379 | after an update, the guardian read by that relation shows the value typed |
| StudentFormGuardians.FindRelationFirst | src/components/StudentFormFields.tsx:368 | the first index holding the relation is the one found |
| StudentFormGuardians.OtherGuardians | src/components/StudentFormFields.tsx:365 | exactly the guardians that are neither father nor mother |
| StudentFormGuardians.OthersIgnoreParents | src/components/StudentFormFields.tsx:365 | lists that differ only in father or mother entries list the same other guardians |
| StudentFormGuardians.OthersAppendParent | src/components/StudentFormFields.tsx:365 | appending a father or mother does not change the other guardians |
| StudentFormGuardians.ParentUpdateKeepsOthers | src/components/StudentFormFields.tsx:363-379 | typing into the father's or mother's inputs never changes the other guardians |
| StudentFormGuardians.OthersAppendOther | src/components/StudentFormFields.tsx:365 | appending another guardian appends it to the other guardians |
| StudentFormGuardians.AddGuardian | src/components/StudentFormFields.tsx:463-468 | one more guardian of relation Guardian with empty values, listed last among the other guardians |
| StudentFormGuardians.RemoveGuardian | src/components/StudentFormFields.tsx:483-487 | exactly the guardians with another id remain |
| CsvTemplate.Lines | src/utils/csvTemplate.ts:22-26 | one line per sample row, each its values joined by commas |
| CsvTemplate.TemplateHasRequiredHeaders | src/utils/csvTemplate.ts:5-20 | every column the importer requires (StudentManagement.tsx:399) is in the template's header list, so none is reported missing |
| CsvTemplate.NoneMissing | src/components/StudentManagement.tsx:400 | headers holding every required column leave none missing |
| CsvTemplate.TemplateWellFormed | src/utils/csvTemplate.ts:5-26 | fourteen headers and three sample rows, each fourteen clean values |
| CsvTemplate.TrimAllClean | src/components/StudentManagement.tsx:413 | trimming leaves clean values unchanged |
| CsvTemplate.LineReadsBack | src/components/StudentManagement.tsx:413 | the importer splits a line of clean values back into exactly those values |
| CsvTemplate.SampleRowsFit | src/utils/csvTemplate.ts:22-26 | every sample line reads back to its row, as many values as the header line, so no row is a column-count mismatch |
| CsvTemplate.LineClean | src/utils/csvTemplate.ts:29-32 | a line of clean values has no line break and is not blank |
| CsvTemplate.ContentLines | src/utils/csvTemplate.ts:29-32 | the file the template writes splits back (StudentManagement.tsx:393) into the header line and one line per sample row |
| CsvTemplate.SampleAdmissionNosDistinct | src/utils/csvTemplate.ts:22-26 | the three sample admission numbers differ from one another |

## Left out

- Database plumbing: SQLAlchemy query building, commits, flushes and refreshes, and the lookups of a record by its own id. The other rows the create and update handlers read (the current user, the schools, the classes, the teachers) are map parameters, and the numbers the database yields (the generated admission and roll numbers, the id of the flushed account) are fields of the context parameter.
- `Student(**data)` and `Teacher(**data)` raise `TypeError` for a request key that is not a column. The model keeps every sent key in the prepared row.
- Hard delete, the `stats` endpoints (averages and occupancy over floating-point values), and the parts of `create_user_for_student`/`create_user_for_teacher` other than the raise on a non-string name and the values written back to the record: the generated username, the default password and its hash, and the account row itself.
- The roll-number lookup inside `create_user_for_student` (students_denormalized.py:148) is modelled by `GenerateRollNo` on its own; a non-string `school_name` reaching its letter filter is not modelled.
- TeachersRouter.PrepareTeacher: a request without `first_name` is committed and only the response (teachers_denormalized.py:336) then raises `KeyError`; the model covers the committed row, not the error answer.
- StudentsRouter.PrepareStudent: the `school_email` and `school_state` columns it would copy are not reached, since the read of `school.name` raises first; StudentsRouter.PrepareStudentIntended copies all of them.
- The clock and randomness: `datetime.now`, `date.today`, `new Date()` and `Date.now()` identifiers are parameters. `generatePassword` (a `Math.random` shuffle) is not modelled.
- Concurrency: two `sync_model_with_request` calls racing on one table. The model has a single sequential caller.
- Browser machinery: rendering, toasts, `alert`, the DOM download of the CSV template, `FileReader` and the file-extension check before import. A `confirm` dialog is a boolean parameter holding the user's answer.
- `confirmDelete` and the per-guardian `updateGuardian` of the student list (StudentManagement.tsx:374-380, 1252-1256). They remove a student by id and set one field of one guardian, in the same way as the modelled deletions and updates.
- Floating point: `parseFloat` is modelled as the exact real it returns, so `NaN`, `Infinity` and rounding are not modelled. Two percentages are left out: the `Math.round` ones of the attendance view, and the float-division completion percentage of the teacher marks sheet.
- The date library: the month length and the weekday of the first day of the month are inputs of `AttendanceCalendar.GenerateCalendar`. `new Date(...)` parsing of month names is not modelled.
- Unicode: trimming, case folding and the regular expressions' `\s` class are modelled for ASCII only.
- The optional settings of a field (help text, minimum and maximum values, file types, visibility flags) are not in the field records. A field keeps its id, label, key, type, required flag, placeholder, system flag and order. The handlers copy those settings unchanged, so dropping them loses no state change.
- `DailyAttendance.AttendanceSheet.UpdateStudentStatus`, `UpdateStudentField`, `MarkAllPresent`, `MarkAllAbsent` and `Clear` do not check the lock, just as the source handlers do not; the page disables the controls once locked, and that rendering is not modelled.
- RolesPermissions.TogglePermission: requires that the role exists. The source throws a `TypeError` reading `prev[role][permission]` for an unknown role, and the table only offers existing roles.
- FieldEditors.TabbedFieldsEditor.MoveField, FieldEditors.ModuleFieldsEditor.MoveField and TeacherFieldsEditor.TeacherFieldsEditor.MoveField: require that both drag indices lie within the section. The drag-and-drop hooks only produce such indices, and the hooks are not modelled.
- Marks.AcceptedMarksInRange: assumes that rows sharing a roll number share a maximum. The source checks the value against the first matching row only.

## Findings

| source | as written | input that shows it | evidently intended | confidence | as-written member | corrected member |
|---|---|---|---|---|---|---|
| src/backend/routers/students_denormalized.py:89-99 | the serial of an existing admission number is read from its whole trailing digit run, year included | with `20250001` already issued, the next number for 2025 is `202520250002` | the serial after the year: `20250002` | high (proved; not executed) | StudentsRouter.AdmissionNoRepeatsYear | StudentsRouter.IntendedAdmissionNo, StudentsRouter.IntendedAdmissionNoCounts |
| src/components/TeacherFieldsEditor.tsx:367-371 | `handleEditField` does not set `selectedSection`, and `saveField` only touches the section whose id equals it (L413) | edit a field before any add, while `selectedSection` is null, and save with a label and a key: nothing changes | editing selects the field's own section, so the save replaces the field there | high (proved; not executed) | TeacherFieldsEditor.TeacherFieldsEditor.HandleEditField, TeacherFieldsEditor.EditWithoutSelectionLost | TeacherFieldsEditor.TeacherFieldsEditor.HandleEditFieldIntended, TeacherFieldsEditor.IntendedEditApplies |
| src/backend/routers/students_denormalized.py:666 | `create_student` copies `school.name`, but the `School` model (src/backend/models_denormalized.py:484-506) has a `school_name` column and no `name` attribute | any current user whose `school_id` names a stored school: reading `school.name` raises `AttributeError` and no student can be created | copy `school.school_name`, as `create_teacher` does (teachers_denormalized.py:302) | high (proved; not executed) | StudentsRouter.StudentSchool, StudentsRouter.PrepareStudent | StudentsRouter.StudentSchoolIntended, StudentsRouter.PrepareStudentIntended |
