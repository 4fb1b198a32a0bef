# restless `DjangoResource`: route names, routes, errors and responses

This project models the framework-independent logic of `DjangoResource`, the
Django adapter of the restless REST `Resource` (`restless/dj.py`):

- `build_url_name(name, name_prefix=None)` builds a route name. The prefix
  defaults to `'api_'` plus the class name with every `Resource` removed,
  lower-cased. The prefix is right-stripped of `_`, then joined to `name`
  with one `_`.
- `urls(name_prefix=None)` registers two routes under one shared prefix: the
  list route `^$`, named with the suffix `list`, and the detail route
  `^(?P<pk>\d+)/$`, named with the suffix `detail`.
- `build_error(err)` turns Django's `ObjectDoesNotExist` and `Http404` into
  restless's `NotFound` with the same message. It then hands the error to the
  inherited formatter.
- `build_response(data, status=200)` wraps the serialized data in an
  `HttpResponse` with content type `application/json` and the given status.

Two modules:

- `PyStr` (`py_str.dfy`) models the Python `str` operations the name builder
  uses. `replace` is one left-to-right scan over non-overlapping matches,
  including the empty-pattern case. `lower` covers ASCII only. `rstrip` takes
  one character. `join` is also modelled. `Count` (Python's `str.count`) is
  not called by the builder: it only serves to state the length of a
  `replace` result in `ReplaceLength`.
- `DjangoResource` (`django_resource.dfy`) models the four methods above.
  A class is represented by its name (`cls.__name__`). The inherited error
  formatter is a function parameter.

The docstring of `build_url_name` (`restless/dj.py:63-64`) gives
`BlogPostResource -> api_blog_post_list`. The code inserts no separator between
the words of the class name. The docstring of `urls` (`restless/dj.py:88`)
gives `api_blogpost_list`, which matches the code. The model follows the code,
and `DjangoResource.BlogPostResourceNames` proves the `api_blogpost_` form.

## Model

| member | source | states |
|---|---|---|
| PyStr.ReplaceAll | restless/dj.py:72 | `str.replace`; its own contract gives lengths only: removing a non-empty pattern never lengthens the string. The content is stated by `ReplaceEmptyJoin`, `ReplaceFree`, `ReplaceSkipsPrefix`, `ReplaceWordThenScan`, `ReplaceJoined` and `RemoveGlued` |
| PyStr.ReplaceEmpty | restless/dj.py:72 | `str.replace` with an empty pattern: the result starts and ends with `rep` |
| PyStr.ReplaceEmptyLength | restless/dj.py:72 | with an empty pattern, `rep` is inserted one more time than `s` has characters |
| PyStr.ReplaceEmptyJoin | restless/dj.py:72 | `s.replace("", rep)` is `rep.join` of the empty string, each character of `s`, and the empty string: `rep` before every character and at the end |
| PyStr.ReplaceLength | restless/dj.py:72 | the result's length changes by the length of `rep` minus the length of `pat` for every occurrence that `str.count` reports |
| PyStr.CountBound | restless/dj.py:72 | the occurrences that `str.count` reports fit in the string side by side |
| PyStr.ReplaceSkipsPrefix | restless/dj.py:72 | text in which no occurrence starts is copied unchanged, and the scan continues after it |
| PyStr.ReplaceFree | restless/dj.py:72 | a string that does not contain the pattern is returned unchanged |
| PyStr.LeadUniqueNoneBefore | restless/dj.py:72 | in `x + w + y`, where `x` does not contain `w` and `w`'s first character does not recur in `w`, no occurrence of `w` starts inside `x` |
| PyStr.ReplaceLeadingWord | restless/dj.py:72 | a leading occurrence is replaced and the scan resumes right after it |
| PyStr.ReplaceWordThenScan | restless/dj.py:72 | in `x + w + y`, with `x` free of `w` and `w` lead-unique, the `w` after `x` is the first one replaced and the scan goes on with `y` |
| PyStr.ReplaceJoined | restless/dj.py:72 | pieces free of `w`, joined by `w`: replacing `w` by `rep` gives the same pieces joined by `rep`, however many occurrences there are |
| PyStr.RemoveGlued | restless/dj.py:72 | removing `w` from between two texts free of `w` gives their concatenation, even when the concatenation contains `w` |
| PyStr.RemoveTrailingWord | restless/dj.py:72 | removing `w` from `base + w`, where `base` does not contain `w`, gives back `base` |
| PyStr.LowerChar | restless/dj.py:72 | `lower` on one character: each of `A`..`Z` maps to its own lower-case letter (code point plus 32), every other character is unchanged |
| PyStr.Lower | restless/dj.py:72 | `str.lower` (ASCII): the same length, no uppercase letter left, uppercase letters shifted by 32, everything else unchanged |
| PyStr.LowerIdempotent | restless/dj.py:72 | lower-casing twice is lower-casing once |
| PyStr.LowerCharUnderscore | restless/dj.py:72 | lower-casing neither creates nor removes `_` |
| PyStr.RStrip | restless/dj.py:75 | `rstrip('_')` returns a prefix that does not end in `_`, and everything it dropped is `_` |
| PyStr.RStripUnique | restless/dj.py:75 | those three properties determine the result of `rstrip` uniquely |
| PyStr.RStripIdempotent | restless/dj.py:75 | stripping twice is stripping once |
| PyStr.RStripTrailing | restless/dj.py:75 | appending any number of the stripped character does not change the result |
| PyStr.Join | restless/dj.py:76 | `sep.join(parts)`: empty for no parts; otherwise it starts with the first part and ends with the last |
| PyStr.JoinLength | restless/dj.py:76 | the joined string is as long as all the parts plus one `sep` between each two |
| PyStr.JoinCons | restless/dj.py:76 | a part in front of a non-empty list is followed by exactly one `sep` |
| PyStr.JoinPair | restless/dj.py:76 | `sep.join([a, b])` is `a`, one `sep`, then `b` |
| DjangoResource.DefaultPrefix | restless/dj.py:70-73 | the default prefix starts with `api_`, and no uppercase letter follows |
| DjangoResource.DefaultPrefixLength | restless/dj.py:70-73 | the default prefix is 4 characters plus the class name, less 8 for every `Resource` that `count` finds |
| DjangoResource.EffectivePrefix | restless/dj.py:70-73 | the caller's prefix is used whenever one is given, even an empty one; otherwise the default, which starts with `api_` with no uppercase letter after it |
| DjangoResource.BuildUrlName | restless/dj.py:52-76 | the name ends in `_` plus `name`; what precedes that is the prefix in force (explicit, or the default) with exactly its trailing underscores removed |
| DjangoResource.ExplicitPrefix | restless/dj.py:75-76 | with an explicit prefix the name is the stripped prefix, `_`, then `name`, and the class plays no part |
| DjangoResource.TrailingUnderscoresIgnored | restless/dj.py:75 | any number of trailing `_` on an explicit prefix gives the same name |
| DjangoResource.ApiPrefixSpellings | restless/dj.py:75-76 | the prefixes `api_` and `api` give the same name, `api_` plus `name` |
| DjangoResource.ResourceWordLeadUnique | restless/dj.py:72 | two occurrences of `Resource` can never overlap |
| DjangoResource.DefaultPrefixOfResourceClass | restless/dj.py:70-76 | a class `<Base>Resource` gets `api_` + lower(`Base`) + `_` + `name` when `Base` does not contain `Resource` and does not end in `_` |
| DjangoResource.DefaultPrefixExplicit | restless/dj.py:70-76 | whenever removing `Resource` leaves a non-empty base not ending in `_`, the name is `api_` + lower(base) + `_` + `name` |
| DjangoResource.BareResourceClass | restless/dj.py:70-76 | a class named `Resource` has the default prefix `api_` and the names `api_` + `name` |
| DjangoResource.BlogPostResourceNames | restless/dj.py:85-89 | `BlogPostResource` gives `api_blogpost_` + `name` (so `api_blogpost_list`) |
| DjangoResource.ResourceWordsRemoved | restless/dj.py:70-76 | a class name made of pieces free of `Resource`, joined by any number of `Resource`, gets `api_` + the lower-cased pieces run together + `_` + `name` |
| DjangoResource.EveryResourceRemoved | restless/dj.py:72 | every occurrence of `Resource` is removed: `ResourceBlogResource` gives `api_blog_` + `name` |
| DjangoResource.RemovalIsOneScan | restless/dj.py:72 | the removal is a single scan: `ResResourceource` gives `api_resource_` + `name` |
| DjangoResource.NameInjective | restless/dj.py:76 | under one prefix, different suffixes give different names |
| DjangoResource.Urls | restless/dj.py:93-96 | exactly two routes: the list route `^$` named with `list`, and the detail route `^(?P<pk>\d+)/$` named with `detail`; the two names differ |
| DjangoResource.NormalizeError | restless/dj.py:47-48 | `ObjectDoesNotExist` and `Http404` become `NotFound` with the same message; every other error is unchanged; the result is never a Django "does not exist" error |
| DjangoResource.NormalizeErrorClassifies | restless/dj.py:47-48 | the result is `NotFound` iff the input was a Django "does not exist" error or already `NotFound`; normalising twice changes nothing |
| DjangoResource.BuildError | restless/dj.py:45-50 | the inherited formatter receives `NotFound(message)` for a "does not exist" error, and the error itself otherwise |
| DjangoResource.NotFoundErrorsAlike | restless/dj.py:45-50 | the formatter's output is the same for `ObjectDoesNotExist`, `Http404` and `NotFound` carrying the same message |
| DjangoResource.BuildResponse | restless/dj.py:39-43 | the response carries the data as body, `application/json` as content type, and the given status |
| DjangoResource.BuildResponseDefaults | restless/dj.py:39-43 | the status defaults to 200; a response is a JSON response exactly when it is the one built from its own body and status |

## Left out

- `as_list` / `as_detail` (`restless/dj.py:27-33`): they only wrap the base views in `csrf_exempt`. A route records which of the two views it dispatches to.
- `is_debug` (`restless/dj.py:35-37`) reads the global `settings.DEBUG`, a configuration value outside the model.
- The Django version switch (`restless/dj.py:1-9`, `97-99`): the model returns the plain list of routes, as Django 1.7 and later do. The `patterns('', ...)` wrapper for older versions is not modelled.
- `url(...)` registration: the regular expressions are kept as data in `Route`. Matching request paths against them is not modelled.
- The inherited `Resource.build_error` is not part of this model. `BuildError` takes it as the parameter `baseBuildError`.
- `six.text_type(err)` is modelled as the error's `message` string.
- Error classes are modelled by kind. `ObjectDoesNotExist` stands for that class and all its subclasses, such as every model's `DoesNotExist`. `Http404` likewise stands for that class and its subclasses.
- NormalizeError: assumes that `NotFound(msg=...)` keeps the message it is given, including an empty one (as from `raise Http404()`). The `NotFound` class is defined in `restless/exceptions.py`, which is not part of this model; if its constructor substitutes a default for an empty message, the model does not show that.
- `HttpResponse`: only the body, content type and status code are modelled. Charset, headers and encoding are not.
- Lower: covers ASCII only. Python's `str.lower` also lower-cases non-ASCII letters, and those are left unchanged here.
- DefaultPrefix: inherits the ASCII-only lower-casing of `Lower`. Class names with non-ASCII uppercase letters are not lower-cased as Python would do it.
