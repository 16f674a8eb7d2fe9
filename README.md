# School health dashboard: the logic behind the pages

This project models the logic of a school health dashboard, a Next.js app, in Dafny and proves properties of that model. The logic comes from five places:

- **Session** (`lib/auth-provider.tsx`). The signed-in user, the loading flag and the stored copy of the user. Covers sign-in with the mock user, sign-out, restoring the session on start-up and the route guard's redirects. Modelled as the class `AuthProvider.Session` plus the pure function `AuthProvider.Guard`.
- **Student list** (`app/dashboard/students/page.tsx`). The sample roster, the case-insensitive name search that picks the table's rows, and each row's detail and edit links.
- **Student form** (`components/dashboard/student-form.tsx`). The schema's validators:
  - the name has at least 3 characters;
  - `parseInt` reads the age as a whole number between 1 and 19;
  - `parseFloat` reads the height and the weight as positive numbers.

  Also modelled: the values an edit form starts from, and the texts of the submit button and the toast.
- **Growth chart** (`components/dashboard/growth-chart.tsx`).
  - A copy of a student's measurements is sorted by date.
  - Each measurement becomes a point with a month-day label and a BMI rounded to one decimal.
  - The points are filtered by a time range, counted back in calendar months from now.
- **Measurement chart** (`components/dashboard/measurement-chart.tsx`). The sample series: one point per month for the selected number of months. Each point carries the name of its month and a base value plus bounded noise.

The JavaScript semantics these depend on are modelled in their own modules:
- `Calendar`: `Date.prototype.setMonth`, with the year borrow and the day overflow into the next month.
- `JsNumbers`: `toFixed(1)`, `String(number)` for decimals, and division by zero.
- `JsParse`: `parseInt` and `parseFloat`, following sections 19.2.5 and 19.2.4 of ECMA-262. Both skip leading white space and read the longest numeric prefix. `parseInt` also reads `0x` hexadecimal, and `parseFloat` also reads `Infinity`.
- `JsStrings`: `toLowerCase` and `includes`.
- `Sequences`: `Array.prototype.filter` and order-preserving subsequences.

Inputs that the app takes from its surroundings are parameters here:
- the clock, as a calendar date and a time of day;
- `Math.random()`, as draws in [0, 1);
- `localStorage`, as an optional stored user;
- whether `localStorage.setItem` throws, as a boolean.

The router is modelled as the list of paths passed to `router.push`.

Behaviour worth noting:
- A measurement with zero or negative height is not rejected. A zero height gives a BMI of `Infinity`, `-Infinity` or `NaN` (`GrowthChart.Bmi`), not an error.
- The growth chart compares `new Date(m.date)` (midnight UTC) with a cutoff that keeps the current time of day. So a measurement on the cutoff day itself is kept only when the clock reads exactly midnight. At any later time it is dropped, which makes the cutoff day exclusive in practice.
- The range filter does not test a point's own date (see Findings).

## Model

| member | source | states |
|---|---|---|
| AuthProvider.MockUser | lib/auth-provider.tsx:44-49 | The signed-in user carries the supplied email and the admin role, whatever the password |
| AuthProvider.IsPublicPath | lib/auth-provider.tsx:87-88 | Exactly /login and /signup are public, so no page under /dashboard is |
| AuthProvider.Guard | lib/auth-provider.tsx:85-96 | No redirect while loading. A visitor without a user is sent to /login from every page other than /login and /signup. A signed-in user is sent from those two pages to /dashboard. A redirect happens only when not loading, and only when "no user" and "not a public page" agree |
| AuthProvider.GuardSettles | lib/auth-provider.tsx:85-96 | Following the guard's redirect lands on a page where the guard issues no further redirect |
| AuthProvider.DashboardNeedsUser | lib/auth-provider.tsx:90-91 | Every path under /dashboard sends a visitor without a user to /login |
| AuthProvider.Session.constructor | lib/auth-provider.tsx:30-31 | The provider starts with no user, loading, no redirects and whatever storage holds |
| AuthProvider.Session.CheckAuth | lib/auth-provider.tsx:72-82 | The stored user, if any, becomes the user. Otherwise the user is unchanged. Loading ends, so the children render (line 100). Storage and redirects are unchanged |
| AuthProvider.Session.RendersChildren | lib/auth-provider.tsx:100 | The children render if and only if loading is over. While they are hidden, the guard redirects nowhere |
| AuthProvider.Session.BeginLogin | lib/auth-provider.tsx:37 | Sign-in starts loading, which hides the children. Nothing else changes |
| AuthProvider.Session.FinishLogin | lib/auth-provider.tsx:43-62 | Succeeds exactly when email and password are both non-empty and storage accepts the write. On success the mock user is both stored and signed in. On failure, user and storage are unchanged. Loading ends either way |
| AuthProvider.Session.Login | lib/auth-provider.tsx:36-63 | The whole of `login`: the same outcome as FinishLogin, with loading over at the end |
| AuthProvider.Session.Logout | lib/auth-provider.tsx:65-69 | Storage and user are cleared, and /login is appended to the redirects |
| AuthProvider.Session.ProtectRoutes | lib/auth-provider.tsx:85-96 | One run of the effect appends the guard's target, if there is one, and changes nothing else |
| AuthProvider.LoginThenReload | lib/auth-provider.tsx:36-82 | After a successful sign-in, a fresh provider restores the same mock user. After a failed one, it restores what was stored before |
| AuthProvider.LogoutThenReload | lib/auth-provider.tsx:65-96 | After sign-out and a reload, nobody is signed in. Every non-public page then redirects to /login, and the public pages do not redirect |
| StudentsPage.SearchStudents | app/dashboard/students/page.tsx:277-279 | Every shown row's lower-cased name contains the lower-cased search, and no more rows are shown than the roster holds |
| StudentsPage.SearchMembership | app/dashboard/students/page.tsx:277-279 | A roster student is shown if and only if the name matches. Only roster students are shown |
| StudentsPage.SearchKeepsOrder | app/dashboard/students/page.tsx:277 | The shown rows are an order-preserving subsequence of the roster |
| StudentsPage.EmptySearchShowsAll | app/dashboard/students/page.tsx:208 | The initial, empty search shows every student in roster order |
| StudentsPage.SearchIgnoresCase | app/dashboard/students/page.tsx:278 | Two searches that lower-case to the same text show the same rows |
| StudentsPage.SearchLowerCased | app/dashboard/students/page.tsx:278 | Searching for the lower-cased text shows the same rows as the original text |
| StudentsPage.FullNameFindsStudent | app/dashboard/students/page.tsx:277-279 | A search equal to a student's full name, ignoring case, shows that student |
| StudentsPage.RowsIgnoreClassSelect | app/dashboard/students/page.tsx:257-271 | The class select and the filter button do not change the rows. Only the search text does |
| StudentsPage.DetailPath | app/dashboard/students/page.tsx:131 | The name link and "View Details" lead to a page under /dashboard |
| StudentsPage.EditPath | app/dashboard/students/page.tsx:196 | The "Edit" link leads to a page under /dashboard |
| StudentsPage.LinksIdentifyStudent | app/dashboard/students/page.tsx:193-196 | Different ids give different detail links and different edit links. The edit link is the detail link followed by /edit |
| StudentsPage.RowLinksNeedSignIn | app/dashboard/students/page.tsx:131-196 | Any row link followed without a user redirects to /login |
| StudentsPage.SampleIdsDistinct | app/dashboard/students/page.tsx:42-123 | The sample roster's ids are pairwise distinct |
| JsStrings.ToLower | app/dashboard/students/page.tsx:278 | Keeps the length. Maps A-Z to a-z and keeps every other character |
| JsStrings.ToLowerIdempotent | app/dashboard/students/page.tsx:278 | Lower-casing twice is the same as lower-casing once |
| JsStrings.IncludesAt | app/dashboard/students/page.tsx:278 | `includes` holds if and only if the search occurs as a slice at some index |
| StudentForm.Utf16Length | components/dashboard/student-form.tsx:28 | `length` counts UTF-16 code units: between one and two per character, and exactly one each when every character is in the Basic Multilingual Plane |
| StudentForm.NameValid | components/dashboard/student-form.tsx:28-30 | A name of at least 3 characters passes. A passing name has at least 2 characters. With only Basic Multilingual Plane characters, it passes if and only if it has at least 3 |
| StudentForm.AgeValid | components/dashboard/student-form.tsx:31-36 | An accepted age contains a digit and parses to an integer from 1 to 19 |
| StudentForm.PositiveNumberValid | components/dashboard/student-form.tsx:43-54 | An accepted height or weight parses to a positive finite number or to `Infinity` |
| StudentForm.Validate | components/dashboard/student-form.tsx:27-55 | The form passes if and only if all four checks pass. Each of name, age, height and weight is reported if and only if its own check fails. The reported fields come in schema order, each at most once |
| StudentForm.Report | components/dashboard/student-form.tsx:27-55 | The reported fields are exactly the failing ones, in schema order and each at most once. The list is empty only when all four checks pass |
| StudentForm.MessageIdentifiesField | components/dashboard/student-form.tsx:28-54 | The four fields' messages are pairwise different, so a shown message names its field |
| StudentForm.NoDigitNoAge | components/dashboard/student-form.tsx:31-36 | A string without a decimal digit is never a valid age |
| StudentForm.NoDigitOnlyInfinity | components/dashboard/student-form.tsx:43-54 | A string without a decimal digit passes the height or weight check if and only if it parses as `Infinity` |
| StudentForm.EmptyRejected | components/dashboard/student-form.tsx:27-55 | The empty form fails every check, and all four fields are reported in schema order |
| StudentForm.AgeReadsIntegerPrefix | components/dashboard/student-form.tsx:32-33 | "7.9" is read as 7 and accepted as an age |
| StudentForm.HexAgeAccepted | components/dashboard/student-form.tsx:31-36 | "0x13" is read as hexadecimal 19 and accepted as an age |
| StudentForm.HeightWithUnitAccepted | components/dashboard/student-form.tsx:43-48 | "142.5cm" is read as 142.5 and accepted as a height |
| StudentForm.ExponentWeightAccepted | components/dashboard/student-form.tsx:49-54 | "1e2x" is read as 100 and accepted as a weight |
| StudentForm.InfinityIsPositive | components/dashboard/student-form.tsx:44-46 | "Infinity" passes the height and the weight check |
| StudentForm.TextOrEmpty | components/dashboard/student-form.tsx:69 | A present text field is kept, and an absent one becomes "" |
| StudentForm.NumberOrEmpty | components/dashboard/student-form.tsx:70 | An absent or zero number becomes "", and any other number becomes its printed decimal |
| StudentForm.FormDefaults | components/dashboard/student-form.tsx:68-75 | Without a student, every field starts empty |
| StudentForm.DefaultAgeValid | components/dashboard/student-form.tsx:70 | For an age printed without an exponent, the student's stored age passes the age check if and only if it is present and lies in [1, 20) |
| StudentForm.DecimalAgeValid | components/dashboard/student-form.tsx:31-36 | A number printed without an exponent passes the age check if and only if its value lies in [1, 20) |
| StudentForm.DefaultNumberValid | components/dashboard/student-form.tsx:73-74 | A stored height or weight passes its check if and only if it is present and above the smallest value that does not underflow to 0 |
| StudentForm.EditDefaultsValid | components/dashboard/student-form.tsx:68-75 | For an age printed without an exponent, the form opened on a student passes if and only if the student has a name of at least 3 UTF-16 code units, an age in [1, 20), and a positive height and weight |
| StudentForm.SubmitLabel | components/dashboard/student-form.tsx:224 | The button reads "Saving..." while saving, "Update Student" when editing, and "Add Student" otherwise |
| StudentForm.ToastTitle | components/dashboard/student-form.tsx:85 | The title is "Student Updated" when editing and "Student Created" otherwise |
| StudentForm.ToastDescription | components/dashboard/student-form.tsx:86 | The description begins with the student's name |
| StudentForm.LabelsAgree | components/dashboard/student-form.tsx:85-86 | The button and the toast make the same update-or-create choice |
| JsParse.TrimStart | components/dashboard/student-form.tsx:32 | Removes exactly the leading white space: the result is a suffix that starts with a non-space, and everything removed is white space |
| JsParse.ParseInt | components/dashboard/student-form.tsx:32 | A number is produced only when the string contains a decimal digit |
| JsParse.ParseFloat | components/dashboard/student-form.tsx:44 | A finite number is produced only when the string contains a decimal digit |
| JsParse.ParsersSkipWhiteSpace | components/dashboard/student-form.tsx:32-50 | Leading white space changes neither parser's result |
| JsParse.ParseIntDecimalPrefix | components/dashboard/student-form.tsx:32 | Digits followed by a non-digit parse to the value of the digits. The rest of the string is ignored |
| JsParse.ParseIntHexPrefix | components/dashboard/student-form.tsx:32 | "0x" or "0X" followed by hexadecimal digits and then a non-hex character parses to the hexadecimal value. The rest of the string is ignored |
| JsParse.ParseFloatFractionPrefix | components/dashboard/student-form.tsx:44 | Digits, a point and fraction digits, followed by neither a digit nor an exponent, parse to the exact decimal value. The rest of the string is ignored |
| JsParse.ParseFloatExponentPrefix | components/dashboard/student-form.tsx:44 | Digits, "e" and exponent digits, followed by a non-digit, parse to the digits' value times 10 to the exponent. The rest of the string is ignored |
| JsParse.ParseIntOfDecimalString | components/dashboard/student-form.tsx:70 | For a value printed without an exponent, `parseInt(String(x))` is `x` truncated toward zero |
| JsParse.ParseFloatOfDecimalString | components/dashboard/student-form.tsx:73-74 | `parseFloat(String(x))` gives back `x`, up to underflow to 0 |
| JsParse.NatToDigitsValue | components/dashboard/student-form.tsx:70 | The digits printed for a whole number read back as that number |
| JsNumbers.NumberValue | components/dashboard/student-form.tsx:44 | A parsed value becomes a finite number that is positive exactly above the underflow bound, and 0 inside it |
| JsNumbers.DecimalString | components/dashboard/student-form.tsx:70 | `String(x)` begins with "-" exactly for negatives and with a digit otherwise |
| JsNumbers.NormalizeValue | components/dashboard/student-form.tsx:70 | Dropping trailing zeros of the fraction keeps the value |
| JsNumbers.TruncatedPartBetween | components/dashboard/student-form.tsx:33 | The truncated value lies strictly between 0 and k if and only if the value lies in [1, k) |
| JsNumbers.RoundToTenth | components/dashboard/growth-chart.tsx:43 | The result is a whole number of tenths and the nearest one to the input. A tie goes up for inputs at or above 0 and down for negative inputs, that is, away from zero |
| JsNumbers.RoundToTenthOdd | components/dashboard/growth-chart.tsx:43 | Rounding is symmetric about 0: a negative value rounds as its magnitude does, with the sign put back |
| JsNumbers.RoundToTenthIdempotent | components/dashboard/growth-chart.tsx:43 | Rounding a rounded value changes nothing |
| JsNumbers.ToFixedOne | components/dashboard/growth-chart.tsx:43 | `Number(x.toFixed(1))` keeps NaN and the infinities and moves a finite value by at most 0.05 |
| JsNumbers.Divide | components/dashboard/growth-chart.tsx:43 | Division by a non-zero divisor is exact. Division by zero gives NaN for 0 / 0, `Infinity` for a positive dividend and `-Infinity` for a negative one |
| GrowthChart.Bmi | components/dashboard/growth-chart.tsx:43 | For a non-zero height the BMI is finite and within 0.05 of weight / (height / 100)². Below 10^21 in magnitude it is exactly that quotient rounded to one decimal, a tie going away from zero. For a zero height it is not finite, and it is NaN exactly when the weight is 0 too |
| GrowthChart.BmiExample | components/dashboard/growth-chart.tsx:43 | 142.5 cm and 35.2 kg give a BMI of 17.3 |
| GrowthChart.InsertByDate | components/dashboard/growth-chart.tsx:38 | Inserting into a date-sorted list keeps it sorted and adds exactly the new measurement |
| GrowthChart.SortByDate | components/dashboard/growth-chart.tsx:37-38 | The copy is sorted ascending by date and is a permutation of the input. The input is a value and stays as it is |
| GrowthChart.InsertByDateSameDay | components/dashboard/growth-chart.tsx:38 | Among the measurements of one day, the inserted one goes first |
| GrowthChart.SortByDateStable | components/dashboard/growth-chart.tsx:37-38 | The sort keeps the input order of measurements on the same day |
| GrowthChart.SortByDateSorted | components/dashboard/growth-chart.tsx:37-38 | Sorting an already sorted list changes nothing |
| GrowthChart.ToPoints | components/dashboard/growth-chart.tsx:39-44 | One point per measurement, position by position |
| GrowthChart.ChartData | components/dashboard/growth-chart.tsx:37-44 | The chart data has one point per measurement |
| GrowthChart.ChartDataPointwise | components/dashboard/growth-chart.tsx:39-44 | Point i carries the label, the unchanged height and weight, and the BMI of the i-th measurement in date order |
| GrowthChart.ChartDataFromMeasurements | components/dashboard/growth-chart.tsx:37-44 | Every point comes from an input measurement, and every input measurement gives a point |
| GrowthChart.RangeMonths | components/dashboard/growth-chart.tsx:50-54 | "3m" counts 3 months, "1y" 12, and every other token 6 |
| GrowthChart.Cutoff | components/dashboard/growth-chart.tsx:56 | The cutoff keeps the time of day and lies `months` calendar months back, or one month later when the day overflows. It lies strictly before today |
| GrowthChart.FirstWithLabel | components/dashboard/growth-chart.tsx:59-61 | The index of the first measurement with the label: no earlier one has it |
| GrowthChart.FindByLabel | components/dashboard/growth-chart.tsx:59-61 | `find` fails if and only if no measurement has the label. A found measurement is in the input, has the label, and is the first such measurement |
| GrowthChart.KeepPoint | components/dashboard/growth-chart.tsx:59-61 | A point is kept if and only if some measurement has its label and the first such measurement is at midnight on or after the cutoff |
| GrowthChart.FilteredData | components/dashboard/growth-chart.tsx:47-62 | The shown data is an order-preserving subsequence of the chart data, and all of it for "all". Otherwise a point is shown if and only if the label lookup's measurement is at or after the cutoff. GrowthChart.FilteredDataCount adds that copies are kept with their multiplicity |
| GrowthChart.FilteredDataCount | components/dashboard/growth-chart.tsx:58-62 | Outside "all", each kept point is shown as many times as it occurs in the chart data, and a dropped one not at all |
| GrowthChart.EveryPointFound | components/dashboard/growth-chart.tsx:59-61 | Every point's label is found, so the comparison with `new Date("")` never happens |
| GrowthChart.FilteredByFirstSameLabel | components/dashboard/growth-chart.tsx:58-62 | Outside "all", a point is shown if and only if the first raw measurement with its month-day label is at or after the cutoff |
| GrowthChart.SameLabelSameDecision | components/dashboard/growth-chart.tsx:59-61 | Two points with the same month-day label are shown or hidden together |
| GrowthChart.Render | components/dashboard/growth-chart.tsx:119-186 | The chart is given the filtered data. The height line appears for "height" and "both", and the weight line for "weight" and "both" |
| GrowthChart.MetricIndependent | components/dashboard/growth-chart.tsx:33 | The metric selection does not change the plotted data |
| GrowthChart.IntendedFilteredData | components/dashboard/growth-chart.tsx:47-48 | The corrected filter shows all the chart data for "all" |
| GrowthChart.IntendedKeepsOwnDate | components/dashboard/growth-chart.tsx:58-62 | The corrected filter gives an order-preserving subsequence of the chart data. It shows every measurement dated at or after the cutoff, and nothing else |
| GrowthChart.FilterAgreesWithoutRepeatedDays | components/dashboard/growth-chart.tsx:58-62 | When no two measurements share a month-day label on different dates, the source's filter and the corrected one agree |
| GrowthChart.LabelLookupLosesYear | components/dashboard/growth-chart.tsx:58-62 | For 15 April 2022 and 15 April 2023 with "3m" on 20 April 2023, the source's filter shows nothing |
| GrowthChart.IntendedKeepsLaterYear | components/dashboard/growth-chart.tsx:58-62 | On the same input, the corrected filter shows the 2023 point |
| Calendar.DaysInMonth | components/dashboard/measurement-chart.tsx:37 | A month has 28 to 31 days, and 29 exactly for February of a leap year |
| Calendar.SetMonth | components/dashboard/measurement-chart.tsx:37 | `setMonth` moves to the given month, counted from the year, and keeps the day unless it overflows into the next month |
| Calendar.AddMonths | components/dashboard/growth-chart.tsx:56 | `setMonth(getMonth() + k)` lands k months away, or one month later. It lands exactly k months away if and only if the day of the month is kept |
| Calendar.AddMonthsIndex | components/dashboard/growth-chart.tsx:56 | Moving k months lands k months away, or one month later when the day overflows. Then the day is at most 3 |
| Calendar.AddMonthsBack | components/dashboard/growth-chart.tsx:56 | Moving back k months never moves forward in time, and moves strictly back when k is at least 1 |
| Calendar.AtOrAfterTime | components/dashboard/growth-chart.tsx:61 | Comparing dates with times of day agrees with comparing their `getTime()` values |
| MeasurementChart.MonthCount | components/dashboard/measurement-chart.tsx:28-33 | "1month" gives 1, "6months" 6, "1year" 12, and any other token 3 |
| MeasurementChart.NumMonths | components/dashboard/measurement-chart.tsx:28-33 | The if-chain computes the month count |
| MeasurementChart.RawHeight | components/dashboard/measurement-chart.tsx:40-44 | The height before rounding lies in [129.7 + 0.7i, 130.3 + 0.7i) |
| MeasurementChart.RawWeight | components/dashboard/measurement-chart.tsx:41-45 | The weight before rounding lies in [39.8 + 0.2i, 40.2 + 0.2i) |
| MeasurementChart.Rounded | components/dashboard/measurement-chart.tsx:49-50 | `Number(x.toFixed(1))` on this chart's values stays within 0.05 of the input |
| MeasurementChart.GenerateChartData | components/dashboard/measurement-chart.tsx:23-55 | Returns exactly the month count of points. Point i is labelled with the month of `now` moved back count - 1 - i months and carries the rounded noisy values of draw i. Every label is a month name, and the last is the current month |
| MeasurementChart.LastPointIsCurrentMonth | components/dashboard/measurement-chart.tsx:37-48 | The last point is shifted by zero months and carries the current month |
| MeasurementChart.PointBounds | components/dashboard/measurement-chart.tsx:40-50 | After rounding, point i's height lies in [129.65 + 0.7i, 130.35 + 0.7i] and its weight in [39.75 + 0.2i, 40.25 + 0.2i] |
| MeasurementChart.PointMonthIndex | components/dashboard/measurement-chart.tsx:36-37 | Point i lies count - 1 - i months before now, or one month later when the day overflows. On days up to the 28th it lies exactly there |
| MeasurementChart.IntendedLabelsDistinct | components/dashboard/measurement-chart.tsx:36-48 | Counting back on month numbers alone, the labels of a series of up to twelve months are pairwise different |
| MeasurementChart.IntendedLastLabel | components/dashboard/measurement-chart.tsx:37-48 | The corrected labelling also ends with the current month |
| MeasurementChart.LabelsAgreeEarlyInMonth | components/dashboard/measurement-chart.tsx:36-48 | Up to the 28th of the month, the source's labels are the intended ones |
| MeasurementChart.ThreeMonthsFromMarch31 | components/dashboard/measurement-chart.tsx:36-48 | On 31 March the three-month series is labelled Jan, Mar, Mar, where Feb was meant |
| Sequences.FilterIsSubsequence | app/dashboard/students/page.tsx:277 | `filter` gives an order-preserving subsequence |
| Sequences.FilterCount | components/dashboard/growth-chart.tsx:58 | `filter` keeps every copy of an accepted element and no copy of a rejected one, counted with multiplicity |
| Sequences.FilterMembers | components/dashboard/growth-chart.tsx:58 | `filter` keeps an element if and only if the predicate holds for it, and keeps nothing else. Sequences.FilterCount adds that every copy is kept |

## Left out

- Rendering is not modelled: JSX, recharts axes, lines and tooltips, the Radix dialogs, menus and tabs, and the toast itself. Only the data handed to the chart, which lines it draws, and the texts of the button and the toast are modelled.
- `setTimeout` in `login` and in the form's `onSubmit` is not modelled. `login` is split into `BeginLogin` and `FinishLogin` around it.
- `onSubmit` is not modelled beyond the texts it shows.
- `localStorage` and `JSON.stringify`/`JSON.parse` are replaced by an optional stored user, and a boolean says whether the write throws. The round trip through JSON is taken to give back the same user.
- The default context value of `lib/auth-provider.tsx:20-25` is not modelled. No component here renders outside the provider.
- `router.push` is recorded as a list of target paths. No navigation follows from it.
- React effects and hooks are replaced by explicit calls. `ProtectRoutes` is one run of the effect, with its dependencies as the fields.
- The zod and react-hook-form machinery is not modelled, including the email check of app/login/page.tsx. The schema's refinements are modelled as plain predicates.
- app/login/page.tsx, app/dashboard/page.tsx, components/dashboard/dashboard-layout.tsx and app/layout.tsx are not part of this model. They are layout, fixed figures and provider wiring.
- No BMI classification and no measurement validation appear in the modelled files, so none is modelled.
- Locale and time zones are left out. `toLocaleDateString('en-US', { month: 'short', day: 'numeric' })` is the pair (month, day), and every date is taken in UTC.
- Measurement date strings are taken to be date-only strings and are parsed to calendar days. `new Date` of other formats is not modelled.
- GrowthChart.Bmi: computed over exact reals as two divisions by height / 100, not as binary64 arithmetic. The result is the exact quotient rounded to one decimal; the binary64 rounding of the quotient before `toFixed` is not modelled.
- MeasurementChart.Rounded: requires its input in [0, 1000). All of the chart's values lie there, far inside the fixed-point range of `toFixed`.
- JsNumbers.ToFixedOne: rounds exact reals. It does not model the binary64 representation error that can move a value printed as "x.x5".
- JsParse.ParseInt: returns the exact integer. It does not model the rounding of integers beyond 2^53, nor the -0 that `parseInt("-0")` gives. A -0 age fails the check either way.
- JsParse.ParseFloat: returns the exact rational value, with underflow to 0 below half the smallest subnormal. It does not model rounding to the nearest binary64 or overflow to `Infinity`.
- JsNumbers.DecimalString: models `String(x)` for numbers written as positional decimals. The exponent notation JavaScript uses below 1e-6 and from 1e21 on is not modelled. The numbers are given as decimals, not as binary64 values.
- JsParse.ParseIntOfDecimalString: requires `Positional`, a value printed without an exponent. For magnitudes below 1e-6 and from 1e21 on, `String` prints an exponent: `String(5e-7)` is "5e-7", and `parseInt` reads 5 from it. That case is not modelled.
- StudentForm.DecimalAgeValid: requires `Positional` for the same reason. An age of 5e-7 would print as "5e-7" and pass the age check, which the model does not cover.
- StudentForm.DefaultAgeValid: requires `Positional` of a present age, for the same reason.
- StudentForm.EditDefaultsValid: requires `Positional` of a present age, for the same reason.
- StudentForm.NumberOrEmpty: prints through `DecimalString`, so it shares that member's gap for exponent notation.
- JsStrings.ToLower: lower-cases A-Z only. The full Unicode case mapping of `toLowerCase`, including characters whose lower case has another length, is not modelled.
- `Math.random()` is modelled as given draws in [0, 1), one pair per month. Their distribution is not modelled.
- The clock `new Date()` is a parameter: a calendar date plus milliseconds since midnight.

## Findings

| source | as written | input that shows it | evidently intended | confidence | as-written member | corrected member |
|---|---|---|---|---|---|---|
| components/dashboard/growth-chart.tsx:58-62 | A point is kept when the first raw measurement with the same month-day label is at or after the cutoff. The label has no year, so a point is judged by an older measurement from the same day of another year | Measurements on 15 Apr 2022 and 15 Apr 2023, range "3m", now 20 Apr 2023 at midnight. Both points are dropped, although the 2023 one is inside the range | Each point is judged by its own measurement's date, so the 2023 point is shown | not executed | GrowthChart.LabelLookupLosesYear | GrowthChart.IntendedKeepsLaterYear |
| components/dashboard/measurement-chart.tsx:36-37 | Each month's label comes from a copy of now whose month is set back. The day of the month is kept, so a day missing from the target month overflows into the next month | Now is 31 Mar 2023, range "3months". The labels are Jan, Mar, Mar: 31 Feb overflows to 3 Mar | Consecutive month names ending with the current month: Jan, Feb, Mar | not executed | MeasurementChart.ThreeMonthsFromMarch31 | MeasurementChart.IntendedLabelsDistinct |
