/**
 The boundary of the dependency-injection container: the pipeline only
 appends `(service type, implementation type, lifetime)` descriptors to
 the caller's service collection. How the container later resolves them
 is not part of this model.
 */
module DependencyInjection {
  import opened Reflection

  /** The two lifetimes the pipeline can register with. */
  datatype ServiceLifetime = Singleton | Scoped

  /** One registration, as `IServiceCollection` stores it. */
  datatype ServiceDescriptor = ServiceDescriptor(
    serviceType: Type,
    implementationType: Type,
    lifetime: ServiceLifetime)

  /** The contents of an `IServiceCollection`: descriptors in the order they
      were added. */
  type ServiceCollection = seq<ServiceDescriptor>
}
