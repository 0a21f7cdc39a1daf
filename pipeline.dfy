/**
 The filter step `ModifyUsername.run_filter` of nask_filters/pipeline.py:
 it appends `-custom` to the `username` entry of the registration form data,
 updating the dictionary in place, and returns it wrapped as
 `{"form_data": form_data}`.
 */
module Pipeline {

  /** The form values the step distinguishes: Python's `None`, or a text. */
  datatype PyValue = PyNone | PyStr(text: string)

  /** Python's `str(v)`, as an f-string renders `v`. */
  function Str(v: PyValue): string
  {
    match v
    case PyNone => "None"
    case PyStr(t) => t
  }

  /** Python's `d.get(key)`: the stored value, or `None` when the key is absent. */
  function Get(d: map<string, PyValue>, key: string): PyValue
  {
    if key in d then d[key] else PyNone
  }

  const UsernameKey := "username"
  const Suffix := "-custom"
  const FormDataKey := "form_data"

  /**
   The form data after the step: `username` now holds the rendering of its
   old value followed by the 7-character suffix `-custom`; `username` is the
   only key that may be added, and every other key keeps its value.
   */
  function WithCustomUsername(d: map<string, PyValue>): (d': map<string, PyValue>)
    ensures d'.Keys == d.Keys + {UsernameKey}
    ensures forall k :: k in d && k != UsernameKey ==> d'[k] == d[k]
    ensures d'[UsernameKey].PyStr?
    ensures |d'[UsernameKey].text| == |Str(Get(d, UsernameKey))| + 7
    ensures d'[UsernameKey].text[..|Str(Get(d, UsernameKey))|] == Str(Get(d, UsernameKey))
    ensures d'[UsernameKey].text[|Str(Get(d, UsernameKey))|..] == "-custom"
  {
    d[UsernameKey := PyStr(Str(Get(d, UsernameKey)) + Suffix)]
  }

  /** A text username gains exactly the suffix. */
  lemma TextUsername(d: map<string, PyValue>, name: string)
    requires UsernameKey in d && d[UsernameKey] == PyStr(name)
    ensures WithCustomUsername(d)[UsernameKey] == PyStr(name + "-custom")
  {
  }

  /** Without a `username` entry, `get` yields `None` and the step stores the
      text `None-custom`. */
  lemma MissingUsername(d: map<string, PyValue>)
    requires UsernameKey !in d
    ensures WithCustomUsername(d)[UsernameKey] == PyStr("None-custom")
    ensures WithCustomUsername(d).Keys == d.Keys + {UsernameKey}
  {
  }

  /** The step is not idempotent: a second application appends the suffix
      a second time, so the result differs from a single application. */
  lemma NotIdempotent(d: map<string, PyValue>)
    ensures var once := WithCustomUsername(d);
            var twice := WithCustomUsername(once);
      && twice[UsernameKey] == PyStr(Str(Get(d, UsernameKey)) + "-custom-custom")
      && twice != once
  {
    var once := WithCustomUsername(d);
    var twice := WithCustomUsername(once);
    assert Get(once, UsernameKey) == once[UsernameKey];
    assert |twice[UsernameKey].text| == |once[UsernameKey].text| + 7;
    assert twice[UsernameKey] != once[UsernameKey];
  }

  /** The mutable dictionary `form_data` the host passes to the step. */
  class FormData {
    var entries: map<string, PyValue>

    constructor (entries: map<string, PyValue>)
      ensures this.entries == entries
    {
      this.entries := entries;
    }
  }

  /** The pipeline step; it has no state of its own. */
  class ModifyUsername {

    /**
     `run_filter(form_data)`: rewrites the `username` entry of `formData` in
     place and returns a one-entry map whose `form_data` value is that same
     object.
     */
    method RunFilter(formData: FormData) returns (result: map<string, FormData>)
      modifies formData`entries
      ensures formData.entries == WithCustomUsername(old(formData.entries))
      ensures result.Keys == {FormDataKey}
      ensures result[FormDataKey] == formData
    {
      var username := Get(formData.entries, UsernameKey);
      formData.entries := formData.entries[UsernameKey := PyStr(Str(username) + Suffix)];
      result := map[FormDataKey := formData];
    }
  }
}
