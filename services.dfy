/** The objects a ServiceLocator holds and the lifecycle hooks it calls on them. */
module Services {

  /** C#'s 32-bit `int`, the type of a registration priority. */
  newtype int32 = x: int | -0x8000_0000 <= x < 0x8000_0000

  /** A C# `float`, carried as its 32-bit pattern: the registry only passes it on to the hooks. */
  datatype Float = Float(bits: bv32)

  /** A type a service object can be tested against with `is T`, `as T` or `IsAssignableFrom`:
      the capability interfaces of the registry, or any other type of the application. */
  datatype TypeTag =
    | IService
    | IInitializable
    | IDestroyable
    | IAppPause
    | ITickable
    | ITickableUnscaled
    | ITickableFixed
    | Named(name: string)

  /** A service object. Two services are the same service exactly when they are the same
      reference. `types` is every type the object's run-time class is assignable to; it never
      changes during the object's lifetime. */
  class Service {
    const types: set<TypeTag>

    constructor (types: set<TypeTag>)
      ensures this.types == types
    {
      this.types := types;
    }
  }

  /** One lifecycle hook, with the argument it is called with. */
  datatype Hook =
    | Init
    | Destroy
    | AppPause(pause: bool)
    | Tick(deltaTime: Float)
    | TickUnscaled(deltaTime: Float)
    | TickFixed(fixedDeltaTime: Float)
  {
    /** The interface that declares this hook; only services of that type receive it. */
    function Interface(): TypeTag {
      match this
      case Init => IInitializable
      case Destroy => IDestroyable
      case AppPause(_) => IAppPause
      case Tick(_) => ITickable
      case TickUnscaled(_) => ITickableUnscaled
      case TickFixed(_) => ITickableFixed
    }
  }

  /** A hook invoked on a service. */
  datatype Call = Call(service: Service, hook: Hook)
}
